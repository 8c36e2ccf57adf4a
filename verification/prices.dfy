/**
 The price cleaner: any cell value, already turned into text, becomes a
 number. The text is cleaned (currency signs and spaces deleted, commas made
 periods) and then parsed; text the parser rejects is worth zero.
 */
module Prices {
  import opened Wrappers
  import opened Cleaning
  import opened Decimal

  /**
   The cleaner with the parse failure kept visible: `None` exactly when the
   cleaned text spells no numeral.
   */
  function TryPrice(raw: string): Option<real> {
    Parse(Clean(raw))
  }

  /** The cleaner fails exactly when the cleaned text is the text of no valid numeral. */
  lemma TryPriceExact(raw: string)
    ensures TryPrice(raw).None? <==> forall n :: Valid(n) ==> Render(n) != Clean(raw)
    ensures forall n :: Valid(n) && Render(n) == Clean(raw) ==> TryPrice(raw) == Some(Value(n))
  {
    ParseExact(Clean(raw));
  }

  /**
   The price of a cell. It never fails: text that does not parse is worth
   zero. It is not clamped either: only a minus sign in the raw text can make
   it negative, and nothing stops one from doing so.
   */
  function CleanPrice(raw: string): (r: real)
    ensures TryPrice(raw).None? ==> r == 0.0
    ensures r != 0.0 ==> TryPrice(raw) == Some(r)
    ensures r < 0.0 ==> '-' in raw
  {
    NegativeNeedsMinus(raw);
    TryPrice(raw).GetOr(0.0)
  }

  lemma NegativeNeedsMinus(raw: string)
    ensures TryPrice(raw).Some? && TryPrice(raw).value < 0.0 ==> '-' in raw
  {
    var s := Clean(raw);
    match Lex(s)
    case None =>
    case Some(n) =>
      if Value(n) < 0.0 {
        assert n.sign == Minus;
        assert s == "-" + n.whole + (if n.point then ['.'] else []) + n.frac;
        assert s[0] == '-';
        assert '-' in s;
      }
  }

  /** Deleting or inserting a euro sign, dollar sign or space anywhere leaves the price unchanged. */
  lemma PriceIgnoresNoise(a: string, c: char, b: string)
    requires IsNoise(c)
    ensures CleanPrice(a + [c] + b) == CleanPrice(a + b)
    ensures TryPrice(a + [c] + b) == TryPrice(a + b)
  {
    CleanIgnoresNoise(a, c, b);
  }

  /** A comma reads exactly as a period at the same position. */
  lemma PriceCommaIsPoint(a: string, b: string)
    ensures CleanPrice(a + [','] + b) == CleanPrice(a + ['.'] + b)
    ensures TryPrice(a + [','] + b) == TryPrice(a + ['.'] + b)
  {
    CleanCommaIsPoint(a, b);
  }

  /** Text that has nothing to clean reaches the parser verbatim. */
  lemma PlainTextVerbatim(s: string)
    requires IsPlain(s)
    ensures TryPrice(s) == Parse(s)
  {
    CleanFixedPoint(s);
  }

  /** Cleaning turns a numeral written with either separator into its canonical text. */
  lemma {:induction false} CleanRenderWith(n: Numeral, sep: char)
    requires Valid(n)
    requires sep == '.' || sep == ','
    ensures Clean(RenderWith(n, sep)) == Render(n)
  {
    var head := SignText(n.sign) + n.whole;
    var mark: string := if n.point then [sep] else [];
    assert IsPlain(head) by {
      forall i | 0 <= i < |head| ensures !IsSpecial(head[i]) {
        if i >= |SignText(n.sign)| {
          assert head[i] == n.whole[i - |SignText(n.sign)|];
          assert IsDigit(n.whole[i - |SignText(n.sign)|]);
        }
      }
    }
    assert IsPlain(n.frac) by {
      forall i | 0 <= i < |n.frac| ensures !IsSpecial(n.frac[i]) {
        assert IsDigit(n.frac[i]);
      }
    }
    CleanFixedPoint(head);
    CleanFixedPoint(n.frac);
    assert Clean(mark) == if n.point then ['.'] else [] by {
      if n.point {
        CleanOneChar(sep);
      }
    }
    CleanConcat(head + mark, n.frac);
    CleanConcat(head, mark);
  }

  /**
   A numeral written with a period or a comma, with any run of currency signs
   and spaces before and after it, is priced at the numeral's value.
   */
  lemma PriceOfDecorated(pre: string, n: Numeral, sep: char, post: string)
    requires Valid(n)
    requires sep == '.' || sep == ','
    requires forall i :: 0 <= i < |pre| ==> IsNoise(pre[i])
    requires forall i :: 0 <= i < |post| ==> IsNoise(post[i])
    ensures TryPrice(pre + RenderWith(n, sep) + post) == Some(Value(n))
    ensures CleanPrice(pre + RenderWith(n, sep) + post) == Value(n)
  {
    CleanConcat(pre + RenderWith(n, sep), post);
    CleanConcat(pre, RenderWith(n, sep));
    CleanAllNoise(pre);
    CleanAllNoise(post);
    CleanRenderWith(n, sep);
    assert Clean(pre + RenderWith(n, sep) + post) == Render(n);
    LexRender(n);
  }

  /** A numeral's own text is priced at its value. */
  lemma PriceOfNumeral(n: Numeral)
    requires Valid(n)
    ensures TryPrice(Render(n)) == Some(Value(n))
    ensures CleanPrice(Render(n)) == Value(n)
  {
    CleanRenderWith(n, '.');
    LexRender(n);
  }

  /** Whatever the raw text, once it cleans to a numeral's text it is priced at that numeral's value. */
  lemma PriceViaClean(raw: string, n: Numeral)
    requires Valid(n) && Clean(raw) == Render(n)
    ensures TryPrice(raw) == Some(Value(n))
    ensures CleanPrice(raw) == Value(n)
  {
    LexRender(n);
  }

  /** Any minus-signed numeral of non-zero size, "-0.5" included, is priced negative: the cleaner does not clamp. */
  lemma NegativeNotClamped(n: Numeral)
    requires Valid(n) && n.sign == Minus
    requires Magnitude(n) > 0.0
    ensures CleanPrice(Render(n)) < 0.0
  {
    PriceOfNumeral(n);
  }
}
