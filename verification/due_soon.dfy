/**
 The due-soon alert: the subscriptions whose next due day lies between today
 and seven days from today, both ends included, kept in sheet order.
 */
module DueSoon {
  import opened Ledger

  /** How many days ahead the alert looks. */
  const Horizon: int := 7

  predicate InWindow(due: int, today: int) {
    today <= due <= today + Horizon
  }

  /** The subscriptions due within the window, in their original order. */
  function Upcoming(subs: seq<Subscription>, today: int): (r: seq<Subscription>)
    ensures |r| <= |subs|
    ensures forall x :: x in r <==> x in subs && InWindow(x.due, today)
  {
    if subs == [] then []
    else
      assert forall x :: x in subs <==> x == subs[0] || x in subs[1..] by {
        assert subs == [subs[0]] + subs[1..];
      }
      (if InWindow(subs[0].due, today) then [subs[0]] else []) + Upcoming(subs[1..], today)
  }

  /** Each subscription in the window is kept as many times as it occurs; any other is dropped. */
  lemma {:induction false} UpcomingCounts(subs: seq<Subscription>, today: int)
    ensures forall x :: multiset(Upcoming(subs, today))[x] == if InWindow(x.due, today) then multiset(subs)[x] else 0
  {
    if subs != [] {
      UpcomingCounts(subs[1..], today);
      assert subs == [subs[0]] + subs[1..];
    }
  }

  /** Filtering two blocks of rows filters each in turn, so the order of the rows is kept. */
  lemma {:induction false} UpcomingConcat(a: seq<Subscription>, b: seq<Subscription>, today: int)
    ensures Upcoming(a + b, today) == Upcoming(a, today) + Upcoming(b, today)
  {
    if a == [] {
      assert a + b == b;
    } else {
      assert (a + b)[0] == a[0];
      assert (a + b)[1..] == a[1..] + b;
      UpcomingConcat(a[1..], b, today);
    }
  }

  /** A single row is kept exactly when its due day is in the window. */
  lemma UpcomingOne(s: Subscription, today: int)
    ensures Upcoming([s], today) == if InWindow(s.due, today) then [s] else []
  {
    assert [s][1..] == [];
  }

  /** Both ends of the window count; the days just outside do not. */
  lemma WindowEnds(today: int)
    ensures InWindow(today, today) && InWindow(today + 7, today)
    ensures !InWindow(today - 1, today) && !InWindow(today + 8, today)
  {
  }

  /** Rows due today, in three days, in eight days and yesterday: only the first two are kept. */
  lemma UpcomingExample(today: int, a: Subscription, b: Subscription, c: Subscription, d: Subscription)
    requires a.due == today && b.due == today + 3 && c.due == today + 8 && d.due == today - 1
    ensures Upcoming([a, b, c, d], today) == [a, b]
  {
    assert [a, b, c, d][1..] == [b, c, d];
    assert [b, c, d][1..] == [c, d];
    assert [c, d][1..] == [d];
    assert [d][1..] == [];
    assert Upcoming([d], today) == [];
    assert Upcoming([c, d], today) == [];
    assert Upcoming([b, c, d], today) == [b];
  }
}
