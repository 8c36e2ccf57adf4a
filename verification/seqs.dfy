/**
 Sequence helpers: applying a function to every element, as a column-wide
 `apply` does, and adding up a sequence of amounts.
 */
module Seqs {

  function Map<A, B>(f: A -> B, s: seq<A>): seq<B> {
    if s == [] then [] else [f(s[0])] + Map(f, s[1..])
  }

  /** Element `i` of the result is `f` of element `i`. */
  lemma {:induction false} MapPointwise<A, B>(f: A -> B, s: seq<A>)
    ensures |Map(f, s)| == |s|
    ensures forall i :: 0 <= i < |s| ==> Map(f, s)[i] == f(s[i])
  {
    if s != [] {
      MapPointwise(f, s[1..]);
    }
  }

  lemma {:induction false} MapConcat<A, B>(f: A -> B, a: seq<A>, b: seq<A>)
    ensures Map(f, a + b) == Map(f, a) + Map(f, b)
  {
    if a == [] {
      assert a + b == b;
    } else {
      assert (a + b)[0] == a[0];
      assert (a + b)[1..] == a[1..] + b;
      MapConcat(f, a[1..], b);
    }
  }

  /** Mapping a sequence split around element `j`. */
  lemma MapAround<A, B>(f: A -> B, s: seq<A>, j: nat)
    requires j < |s|
    ensures Map(f, s) == Map(f, s[..j]) + [f(s[j])] + Map(f, s[j + 1..])
  {
    var left, right := s[..j], s[j + 1..];
    assert s == left + ([s[j]] + right);
    MapConcat(f, left, [s[j]] + right);
    MapCons(f, s[j], right);
  }

  lemma MapCons<A, B>(f: A -> B, x: A, s: seq<A>)
    ensures Map(f, [x] + s) == [f(x)] + Map(f, s)
  {
    assert ([x] + s)[0] == x && ([x] + s)[1..] == s;
  }

  /** Taking element `j` out of `s` takes `f(s[j])` out of the result. */
  lemma MapRemove<A, B>(f: A -> B, s: seq<A>, j: nat)
    requires j < |s|
    ensures multiset(Map(f, s)) == multiset{f(s[j])} + multiset(Map(f, s[..j] + s[j + 1..]))
  {
    MapAround(f, s, j);
    MapConcat(f, s[..j], s[j + 1..]);
    var left, right := Map(f, s[..j]), Map(f, s[j + 1..]);
    assert multiset(left + [f(s[j])] + right) == multiset{f(s[j])} + multiset(left + right);
  }

  /**
   When `b` is a reordering of a non-empty `a`, the first element of `a` sits
   at some position `j` of `b`, and the rest of `a` is a reordering of `b`
   without that position.
   */
  lemma PermutationHead<T>(a: seq<T>, b: seq<T>) returns (j: nat)
    requires multiset(a) == multiset(b) && a != []
    ensures j < |b| && b[j] == a[0]
    ensures multiset(a[1..]) == multiset(b[..j] + b[j + 1..])
  {
    var x := a[0];
    assert x in multiset(b);
    j :| 0 <= j < |b| && b[j] == x;
    assert b == b[..j] + [x] + b[j + 1..];
    assert a == [x] + a[1..];
    calc {
      multiset(a[1..]);
      multiset(a) - multiset{x};
      multiset(b) - multiset{x};
      multiset(b[..j]) + multiset{x} + multiset(b[j + 1..]) - multiset{x};
      multiset(b[..j] + b[j + 1..]);
    }
  }

  /** Mapping a reordering of a sequence gives a reordering of the result. */
  lemma {:induction false} MapPermutation<A, B>(f: A -> B, a: seq<A>, b: seq<A>)
    requires multiset(a) == multiset(b)
    ensures multiset(Map(f, a)) == multiset(Map(f, b))
    decreases |a|
  {
    if a == [] {
      assert |b| == |multiset(b)| == 0;
    } else {
      var j := PermutationHead(a, b);
      MapPermutation(f, a[1..], b[..j] + b[j + 1..]);
      MapRemove(f, b, j);
      assert Map(f, a) == [f(a[0])] + Map(f, a[1..]);
    }
  }

  /** The sum of a sequence of amounts. */
  function Sum(s: seq<real>): real {
    if s == [] then 0.0 else s[0] + Sum(s[1..])
  }

  lemma {:induction false} SumConcat(a: seq<real>, b: seq<real>)
    ensures Sum(a + b) == Sum(a) + Sum(b)
  {
    if a == [] {
      assert a + b == b;
    } else {
      assert (a + b)[0] == a[0];
      assert (a + b)[1..] == a[1..] + b;
      SumConcat(a[1..], b);
    }
  }

  /** The sum is element `j` plus the sum of the others. */
  lemma SumAround(s: seq<real>, j: nat)
    requires j < |s|
    ensures Sum(s) == s[j] + Sum(s[..j] + s[j + 1..])
  {
    var left, right := s[..j], s[j + 1..];
    var back := [s[j]] + right;
    assert s == left + back;
    assert back[0] == s[j] && back[1..] == right;
    assert Sum(back) == s[j] + Sum(right);
    SumConcat(left, back);
    SumConcat(left, right);
  }

  /** Reordering the amounts does not change their sum. */
  lemma {:induction false} SumPermutation(a: seq<real>, b: seq<real>)
    requires multiset(a) == multiset(b)
    ensures Sum(a) == Sum(b)
    decreases |a|
  {
    if a == [] {
      assert |b| == |multiset(b)| == 0;
    } else {
      var j := PermutationHead(a, b);
      SumPermutation(a[1..], b[..j] + b[j + 1..]);
      SumAround(b, j);
    }
  }

  /** Sums of two equally long sequences compare as their elements do, place by place. */
  lemma {:induction false} SumMonotone(a: seq<real>, b: seq<real>)
    requires |a| == |b|
    requires forall i :: 0 <= i < |a| ==> a[i] <= b[i]
    ensures Sum(a) <= Sum(b)
  {
    if a != [] {
      SumMonotone(a[1..], b[1..]);
    }
  }

  /** A sequence of zeros sums to zero. */
  lemma {:induction false} SumZeros(n: nat)
    ensures Sum(seq(n, _ => 0.0)) == 0.0
  {
    if n > 0 {
      assert seq(n, _ => 0.0)[1..] == seq(n - 1, _ => 0.0);
      SumZeros(n - 1);
    }
  }
}
