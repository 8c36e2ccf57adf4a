/**
 The textual clean-up step of the price cleaner: three deletions (euro sign,
 dollar sign, ASCII space) followed by the rewriting of every comma as a
 period, each a whole-string `str.replace` with a one-character pattern.
 */
module Cleaning {

  /** The euro sign, U+20AC. */
  const Euro: char := '\U{20AC}'

  /** Characters the cleaner deletes. */
  predicate IsNoise(c: char) {
    c == Euro || c == '$' || c == ' '
  }

  /** Characters that never survive cleaning: the noise and the comma. */
  predicate IsSpecial(c: char) {
    IsNoise(c) || c == ','
  }

  /** True when no character of `s` is touched by the cleaner. */
  predicate IsPlain(s: string) {
    forall i :: 0 <= i < |s| ==> !IsSpecial(s[i])
  }

  /** `s` with every occurrence of `c` deleted (Python's `s.replace(c, '')`). */
  function Remove(s: string, c: char): string {
    if s == [] then []
    else if s[0] == c then Remove(s[1..], c) else [s[0]] + Remove(s[1..], c)
  }

  /** Deletion keeps every other character and loses every `c`. */
  lemma {:induction false} RemoveContents(s: string, c: char)
    ensures |Remove(s, c)| <= |s|
    ensures forall x :: x in Remove(s, c) <==> x in s && x != c
  {
    if s != [] {
      RemoveContents(s[1..], c);
      assert forall x :: x in s <==> x == s[0] || x in s[1..] by {
        assert s == [s[0]] + s[1..];
      }
    }
  }

  /** `s` with every occurrence of `c` turned into `d` (Python's `s.replace(c, d)`). */
  function Replace(s: string, c: char, d: char): string {
    if s == [] then []
    else [if s[0] == c then d else s[0]] + Replace(s[1..], c, d)
  }

  /** Substitution rewrites each `c` to `d` in place and leaves every other character where it was. */
  lemma {:induction false} ReplacePointwise(s: string, c: char, d: char)
    ensures |Replace(s, c, d)| == |s|
    ensures forall i :: 0 <= i < |s| ==> Replace(s, c, d)[i] == (if s[i] == c then d else s[i])
  {
    if s != [] {
      ReplacePointwise(s[1..], c, d);
    }
  }

  /** The cleaner's text pipeline, in the source's order. */
  function Clean(s: string): (r: string)
    ensures |r| <= |s|
    ensures IsPlain(r)
    ensures forall x :: x in r ==> x in s || x == '.'
  {
    var t := Remove(Remove(Remove(s, Euro), '$'), ' ');
    RemoveContents(s, Euro);
    RemoveContents(Remove(s, Euro), '$');
    RemoveContents(Remove(Remove(s, Euro), '$'), ' ');
    ReplacePointwise(t, ',', '.');
    var r := Replace(t, ',', '.');
    assert IsPlain(r) by {
      forall i | 0 <= i < |r| ensures !IsSpecial(r[i]) {
        assert t[i] in t;
      }
    }
    assert forall x :: x in r ==> x in t || x == '.' by {
      forall x | x in r ensures x in t || x == '.' {
        var i :| 0 <= i < |r| && r[i] == x;
        assert t[i] in t;
      }
    }
    r
  }

  /** What cleaning does to one character: noise vanishes, a comma becomes a period, the rest stays. */
  lemma CleanOneChar(c: char)
    ensures Clean([c]) == if IsNoise(c) then [] else if c == ',' then ['.'] else [c]
  {
    RemoveOne(c, Euro);
    RemoveOne(c, '$');
    RemoveOne(c, ' ');
    assert Remove([], '$') == [] && Remove([], ' ') == [];
    assert Replace([c], ',', '.') == [if c == ',' then '.' else c] by {
      assert [c][1..] == [];
    }
  }

  lemma RemoveOne(c: char, x: char)
    ensures Remove([c], x) == if c == x then [] else [c]
  {
    assert [c][1..] == [];
    assert [c] + [] == [c];
  }

  lemma {:induction false} RemoveConcat(a: string, b: string, c: char)
    ensures Remove(a + b, c) == Remove(a, c) + Remove(b, c)
  {
    if a == [] {
      assert a + b == b;
    } else {
      assert (a + b)[0] == a[0];
      assert (a + b)[1..] == a[1..] + b;
      RemoveConcat(a[1..], b, c);
      if a[0] == c {
        assert Remove(a + b, c) == Remove(a[1..] + b, c);
      } else {
        assert Remove(a + b, c) == [a[0]] + Remove(a[1..] + b, c);
      }
    }
  }

  lemma {:induction false} ReplaceConcat(a: string, b: string, c: char, d: char)
    ensures Replace(a + b, c, d) == Replace(a, c, d) + Replace(b, c, d)
  {
    if a == [] {
      assert a + b == b;
    } else {
      assert (a + b)[0] == a[0];
      assert (a + b)[1..] == a[1..] + b;
      ReplaceConcat(a[1..], b, c, d);
    }
  }

  /** Cleaning works character by character, so it distributes over concatenation. */
  lemma CleanConcat(a: string, b: string)
    ensures Clean(a + b) == Clean(a) + Clean(b)
  {
    RemoveConcat(a, b, Euro);
    RemoveConcat(Remove(a, Euro), Remove(b, Euro), '$');
    RemoveConcat(Remove(Remove(a, Euro), '$'), Remove(Remove(b, Euro), '$'), ' ');
    ReplaceConcat(Remove(Remove(Remove(a, Euro), '$'), ' '), Remove(Remove(Remove(b, Euro), '$'), ' '), ',', '.');
  }

  lemma {:induction false} RemoveAbsent(s: string, c: char)
    requires c !in s
    ensures Remove(s, c) == s
  {
    if s != [] {
      RemoveAbsent(s[1..], c);
      assert s == [s[0]] + s[1..];
    }
  }

  /** The cleaner leaves a string unchanged exactly when it has nothing to remove or rewrite. */
  lemma CleanFixedPoint(s: string)
    ensures Clean(s) == s <==> IsPlain(s)
  {
    if IsPlain(s) {
      assert Euro !in s && '$' !in s && ' ' !in s;
      RemoveAbsent(s, Euro);
      RemoveAbsent(s, '$');
      RemoveAbsent(s, ' ');
      ReplacePointwise(s, ',', '.');
      assert Replace(s, ',', '.') == s;
    }
  }

  /** Cleaning twice is cleaning once. */
  lemma CleanIdempotent(s: string)
    ensures Clean(Clean(s)) == Clean(s)
  {
    CleanFixedPoint(Clean(s));
  }

  /** A string made only of noise cleans to nothing. */
  lemma {:induction false} CleanAllNoise(s: string)
    requires forall i :: 0 <= i < |s| ==> IsNoise(s[i])
    ensures Clean(s) == []
  {
    if s != [] {
      CleanAllNoise(s[1..]);
      assert s == [s[0]] + s[1..];
      CleanConcat([s[0]], s[1..]);
    }
  }

  /** Inserting a noise character anywhere does not change the cleaned text. */
  lemma CleanIgnoresNoise(a: string, c: char, b: string)
    requires IsNoise(c)
    ensures Clean(a + [c] + b) == Clean(a + b)
  {
    CleanOneChar(c);
    CleanConcat(a + [c], b);
    CleanConcat(a, [c]);
    CleanConcat(a, b);
  }

  /** A comma and a period at the same position clean to the same text. */
  lemma CleanCommaIsPoint(a: string, b: string)
    ensures Clean(a + [','] + b) == Clean(a + ['.'] + b)
  {
    CleanConcat(a + [','], b);
    CleanConcat(a, [',']);
    CleanConcat(a + ['.'], b);
    CleanConcat(a, ['.']);
  }

  /** A dollar sign in front is deleted. */
  lemma CleanDollarExample()
    ensures Clean("$2.99") == "2.99"
  {
    CleanOneChar('$');
    CleanFixedPoint("2.99");
    CleanConcat("$", "2.99");
    assert "$" + "2.99" == "$2.99";
  }

  /** Spaces on both sides are deleted. */
  lemma CleanSpacedExample()
    ensures Clean(" 2.99 ") == "2.99"
  {
    CleanOneChar(' ');
    CleanFixedPoint("2.99");
    CleanConcat(" ", "2.99");
    CleanConcat(" 2.99", " ");
    assert " " + "2.99" == " 2.99";
    assert " 2.99" + " " == " 2.99 ";
  }

  /** The French notation: a decimal comma and a trailing euro sign after a space. */
  lemma CleanEuroExample()
    ensures Clean("2,99 " + [Euro]) == "2.99"
  {
    CleanFixedPoint("2");
    CleanFixedPoint("99");
    CleanOneChar(',');
    CleanAllNoise([' ', Euro]);
    CleanConcat("2", ",");
    CleanConcat("2,", "99");
    CleanConcat("2,99", [' ', Euro]);
    assert "2" + "," == "2,";
    assert "2," + "99" == "2,99";
    assert "2,99" + [' ', Euro] == "2,99 " + [Euro];
    assert "2" + "." + "99" == "2.99";
  }

  /** A thousands separator is rewritten like a decimal comma, leaving two periods. */
  lemma CleanThousandsExample()
    ensures Clean("1,234.56") == "1.234.56"
  {
    CleanFixedPoint("1");
    CleanFixedPoint("234.56");
    CleanOneChar(',');
    CleanConcat("1", ",");
    CleanConcat("1,", "234.56");
    assert "1" + "," == "1,";
    assert "1," + "234.56" == "1,234.56";
    assert "1" + "." + "234.56" == "1.234.56";
  }
}
