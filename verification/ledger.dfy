/**
 The rows of the subscription sheet and the monthly total computed from them.
 A row's price cell is cleaned first; a row whose period is exactly "Mensuel"
 then counts at its price and every other row at a twelfth of it.
 */
module Ledger {
  import opened Prices
  import opened Seqs

  /**
   A sheet row as read: the name, the price cell as text, the period cell,
   and the next due date as a day number.
   */
  datatype Row = Row(name: string, price: string, period: string, due: int)

  /** A row whose price cell has been cleaned into a number. */
  datatype Subscription = Subscription(name: string, price: real, period: string, due: int)

  /** The period label that counts a price as monthly. */
  const Monthly: string := "Mensuel"

  /** The other label the entry form offers. */
  const Yearly: string := "Annuel"

  /** A row with its price cell run through the cleaner. */
  function CleanRow(row: Row): Subscription {
    Subscription(row.name, CleanPrice(row.price), row.period, row.due)
  }

  /** The price column cleaned cell by cell; every other column untouched. */
  function CleanColumn(rows: seq<Row>): seq<Subscription> {
    Map(CleanRow, rows)
  }

  /** Row `i` of the cleaned column is row `i` of the sheet with only its price turned into a number. */
  lemma CleanColumnPointwise(rows: seq<Row>)
    ensures |CleanColumn(rows)| == |rows|
    ensures forall i :: 0 <= i < |rows| ==>
      && CleanColumn(rows)[i].name == rows[i].name
      && CleanColumn(rows)[i].price == CleanPrice(rows[i].price)
      && CleanColumn(rows)[i].period == rows[i].period
      && CleanColumn(rows)[i].due == rows[i].due
  {
    MapPointwise(CleanRow, rows);
  }

  /** What one subscription adds to the monthly total. */
  function MonthlyShare(s: Subscription): real {
    if s.period == Monthly then s.price else s.price / 12.0
  }

  /** The monthly total: the sum of every row's share. */
  function MonthlyTotal(subs: seq<Subscription>): real {
    Sum(Map(MonthlyShare, subs))
  }

  /**
   The total as the dashboard accumulates it: start from zero and add each
   row's share in sheet order.
   */
  method SumMonthly(subs: seq<Subscription>) returns (total: real)
    ensures total == MonthlyTotal(subs)
  {
    total := 0.0;
    var i := 0;
    while i < |subs|
      invariant 0 <= i <= |subs|
      invariant total == MonthlyTotal(subs[..i])
    {
      MonthlyTotalConcat(subs[..i], [subs[i]]);
      MonthlyTotalOne(subs[i]);
      assert subs[..i + 1] == subs[..i] + [subs[i]];
      if subs[i].period == Monthly {
        total := total + subs[i].price;
      } else {
        total := total + subs[i].price / 12.0;
      }
      i := i + 1;
    }
    assert subs[..i] == subs;
  }

  /** A monthly row adds its price; any other period, "Annuel" or a typo, adds a twelfth of it. */
  lemma ShareRules(s: Subscription)
    ensures s.period == Monthly ==> MonthlyShare(s) == s.price
    ensures s.period != Monthly ==> MonthlyShare(s) * 12.0 == s.price
    ensures s.price >= 0.0 ==> 0.0 <= MonthlyShare(s) <= s.price
  {
  }

  /** A 120 yearly subscription costs 10 a month; a 10 monthly one costs 10. */
  lemma ShareExamples()
    ensures MonthlyShare(Subscription("a", 120.0, Yearly, 0)) == 10.0
    ensures MonthlyShare(Subscription("b", 10.0, Monthly, 0)) == 10.0
    ensures MonthlyShare(Subscription("c", 120.0, "mensuel", 0)) == 10.0
  {
    assert Yearly != Monthly;
    assert "mensuel" != Monthly by { assert "mensuel"[0] != Monthly[0]; }
  }

  /** The total over two blocks of rows is the sum of their totals. */
  lemma MonthlyTotalConcat(a: seq<Subscription>, b: seq<Subscription>)
    ensures MonthlyTotal(a + b) == MonthlyTotal(a) + MonthlyTotal(b)
  {
    MapConcat(MonthlyShare, a, b);
    SumConcat(Map(MonthlyShare, a), Map(MonthlyShare, b));
  }

  /** A single row's total is its share. */
  lemma MonthlyTotalOne(s: Subscription)
    ensures MonthlyTotal([s]) == MonthlyShare(s)
  {
    assert [s][1..] == [];
    assert Map(MonthlyShare, [s]) == [MonthlyShare(s)];
    assert [MonthlyShare(s)][1..] == [];
    assert Sum([MonthlyShare(s)]) == MonthlyShare(s) + Sum([]);
  }

  /** Reordering the rows does not change the total. */
  lemma MonthlyTotalPermutation(a: seq<Subscription>, b: seq<Subscription>)
    requires multiset(a) == multiset(b)
    ensures MonthlyTotal(a) == MonthlyTotal(b)
  {
    MapPermutation(MonthlyShare, a, b);
    SumPermutation(Map(MonthlyShare, a), Map(MonthlyShare, b));
  }

  /** The plain sum of the prices, whatever their period. */
  function PriceSum(subs: seq<Subscription>): real {
    Sum(Map((s: Subscription) => s.price, subs))
  }

  /** With no negative price the total is non-negative and at most the sum of the prices. */
  lemma MonthlyTotalBounds(subs: seq<Subscription>)
    requires forall i :: 0 <= i < |subs| ==> subs[i].price >= 0.0
    ensures 0.0 <= MonthlyTotal(subs) <= PriceSum(subs)
  {
    var shares, prices := Map(MonthlyShare, subs), Map((s: Subscription) => s.price, subs);
    MapPointwise(MonthlyShare, subs);
    MapPointwise((s: Subscription) => s.price, subs);
    forall i | 0 <= i < |subs| ensures 0.0 <= shares[i] <= prices[i] {
      ShareRules(subs[i]);
    }
    var zeros := seq(|subs|, _ => 0.0);
    SumMonotone(shares, prices);
    SumMonotone(zeros, shares);
    SumZeros(|subs|);
  }

  /** Nothing clamps a negative price, so one row can make the total negative. */
  lemma NegativeTotal()
    ensures MonthlyTotal([Subscription("refund", -12.0, Yearly, 0)]) == -1.0
  {
    var s := Subscription("refund", -12.0, Yearly, 0);
    assert Yearly != Monthly;
    assert [s][1..] == [];
    MonthlyTotalOne(s);
  }
}
