/** Concrete inputs run through the price cleaner. */
module PriceCases {
  import opened Wrappers
  import opened Cleaning
  import opened Decimal
  import opened Prices

  /** The numeral 2.99, and its value. */
  lemma TwoNinetyNine() returns (n: Numeral)
    ensures Valid(n) && Value(n) == 2.99
    ensures Render(n) == "2.99" && RenderWith(n, ',') == "2,99"
  {
    n := Numeral(Unsigned, "2", true, "99");
    assert DigitsValue("9") == 9;
    assert DigitsValue("99") == 99 by { assert "99"[..1] == "9"; }
    assert Pow10(2) == 100;
  }

  /** Either decimal separator reads as 2.99. */
  lemma SeparatorFormats()
    ensures CleanPrice("2.99") == 2.99
    ensures CleanPrice("2,99") == 2.99
  {
    var n := TwoNinetyNine();
    CleanFixedPoint("2.99");
    CleanCommaIsPoint("2", "99");
    assert "2" + [','] + "99" == "2,99" && "2" + ['.'] + "99" == "2.99";
    PriceViaClean("2.99", n);
    PriceViaClean("2,99", n);
  }

  /** A leading dollar sign is ignored. */
  lemma DollarFormat()
    ensures CleanPrice("$2.99") == 2.99
  {
    var n := TwoNinetyNine();
    CleanDollarExample();
    PriceViaClean("$2.99", n);
  }

  /** Spaces around the amount are ignored. */
  lemma SpacedFormat()
    ensures CleanPrice(" 2.99 ") == 2.99
  {
    var n := TwoNinetyNine();
    CleanSpacedExample();
    PriceViaClean(" 2.99 ", n);
  }

  /** The French notation, a decimal comma and a trailing euro sign, reads as 2.99 too. */
  lemma EuroFormat()
    ensures CleanPrice("2,99 " + [Euro]) == 2.99
  {
    var n := TwoNinetyNine();
    CleanEuroExample();
    PriceViaClean("2,99 " + [Euro], n);
  }

  /** Letters are no numeral, so they are priced at zero. */
  lemma LettersFallBack()
    ensures TryPrice("abc") == None && CleanPrice("abc") == 0.0
  {
    CleanFixedPoint("abc");
    assert Lex("abc").None? by {
      assert SplitSign("abc") == (Unsigned, "abc");
      assert '.' !in "abc";
      assert SplitPoint(Unsigned, "abc") == Numeral(Unsigned, "abc", false, []);
      assert !IsDigit("abc"[0]);
    }
    assert Parse("abc") == None;
  }

  /** A thousands separator leaves two periods after cleaning, so the price falls back to zero. */
  lemma ThousandsFallBack()
    ensures TryPrice("1,234.56") == None && CleanPrice("1,234.56") == 0.0
  {
    CleanThousandsExample();
    assert Lex("1.234.56").None? by {
      assert IndexOf("1.234.56", '.') == Some(1);
      assert "1.234.56"[2..] == "234.56";
      assert !IsDigit("234.56"[3]);
    }
  }

  lemma ZeroParses()
    ensures TryPrice("0") == Some(0.0) && CleanPrice("0") == 0.0
  {
    var n := Numeral(Unsigned, "0", false, []);
    assert Valid(n) && Render(n) == "0";
    assert Value(n) == 0.0 by {
      assert DigitsValue("0") == 0;
      assert DigitsValue([]) == 0 && Pow10(0) == 1;
    }
    CleanFixedPoint("0");
    PriceViaClean("0", n);
  }

  /** The price alone cannot tell "0" from "abc"; the explicit result can. */
  lemma ZeroIsAmbiguous()
    ensures CleanPrice("0") == CleanPrice("abc")
    ensures TryPrice("0") != TryPrice("abc")
  {
    ZeroParses();
    LettersFallBack();
  }

  /** A minus sign survives cleaning: "-3,50" is priced at -3.5. */
  lemma NegativeExample()
    ensures CleanPrice("-3,50") == -3.5
  {
    var n := Numeral(Minus, "3", true, "50");
    assert DigitsValue("5") == 5;
    assert DigitsValue("50") == 50 by { assert "50"[..1] == "5"; }
    assert Pow10(2) == 100;
    assert Value(n) == -3.5;
    assert RenderWith(n, ',') == "-3,50";
    CleanRenderWith(n, ',');
    PriceViaClean("-3,50", n);
  }

  /** A negative amount below one is not clamped either: "-0,50" is priced at -0.5. */
  lemma NegativeFractionExample()
    ensures CleanPrice("-0,50") == -0.5
  {
    var n := Numeral(Minus, "0", true, "50");
    assert DigitsValue("0") == 0;
    assert DigitsValue("5") == 5;
    assert DigitsValue("50") == 50 by { assert "50"[..1] == "5"; }
    assert Pow10(2) == 100;
    assert Value(n) == -0.5;
    assert RenderWith(n, ',') == "-0,50";
    CleanRenderWith(n, ',');
    PriceViaClean("-0,50", n);
  }
}
