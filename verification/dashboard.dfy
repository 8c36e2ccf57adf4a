/**
 The dashboard figures computed from one snapshot of the sheet: the number of
 rows, the monthly total, and the subscriptions due within seven days. An
 empty sheet shows none of them.
 */
module Dashboard {
  import opened Wrappers
  import opened Ledger
  import opened DueSoon
  import opened Seqs

  datatype Summary = Summary(count: nat, monthlyTotal: real, upcoming: seq<Subscription>)

  /** The figures for the rows as read on day `today`; `None` when the sheet is empty. */
  function Summarize(rows: seq<Row>, today: int): (r: Option<Summary>)
    ensures r.None? <==> rows == []
    ensures r.Some? ==> r.value.count == |rows|
    ensures r.Some? ==> |r.value.upcoming| <= r.value.count
    ensures r.Some? ==> forall s :: s in r.value.upcoming ==>
      InWindow(s.due, today) && exists i :: 0 <= i < |rows| && s == CleanRow(rows[i])
    ensures r.Some? ==> forall i :: 0 <= i < |rows| && InWindow(rows[i].due, today) ==>
      CleanRow(rows[i]) in r.value.upcoming
  {
    if rows == [] then None
    else
      var subs := CleanColumn(rows);
      CleanColumnPointwise(rows);
      assert forall i :: 0 <= i < |rows| ==> subs[i] == CleanRow(rows[i]);
      Some(Summary(|rows|, MonthlyTotal(subs), Upcoming(subs, today)))
  }

  /** A sheet of one row: a count of one, that row's share as the total, and the row alerted exactly when it is due within the window. */
  lemma SummarizeOne(row: Row, today: int)
    ensures Summarize([row], today)
         == Some(Summary(1, MonthlyShare(CleanRow(row)), if InWindow(row.due, today) then [CleanRow(row)] else []))
  {
    var s := CleanRow(row);
    assert CleanColumn([row]) == [s] by {
      MapCons(CleanRow, row, []);
      assert [row] + [] == [row];
    }
    MonthlyTotalOne(s);
    UpcomingOne(s, today);
  }

  /**
   One more row at the end of the sheet: the count grows by one, the total by
   that row's share, and the row joins the end of the alert list exactly when
   it is due within the window.
   */
  lemma AppendRow(rows: seq<Row>, row: Row, today: int)
    requires rows != []
    ensures Summarize(rows + [row], today).Some?
    ensures Summarize(rows + [row], today).value.count == Summarize(rows, today).value.count + 1
    ensures Summarize(rows + [row], today).value.monthlyTotal
         == Summarize(rows, today).value.monthlyTotal + MonthlyShare(CleanRow(row))
    ensures Summarize(rows + [row], today).value.upcoming
         == Summarize(rows, today).value.upcoming
            + (if InWindow(row.due, today) then [CleanRow(row)] else [])
  {
    var subs, s := CleanColumn(rows), CleanRow(row);
    MapConcat(CleanRow, rows, [row]);
    assert CleanColumn([row]) == [s] by {
      assert [row][1..] == [];
    }
    assert CleanColumn(rows + [row]) == subs + [s];
    MonthlyTotalConcat(subs, [s]);
    MonthlyTotalOne(s);
    UpcomingConcat(subs, [s], today);
    UpcomingOne(s, today);
  }

  /**
   The order of the rows in the sheet changes neither the count nor the total,
   and the alert list only by its order.
   */
  lemma SummaryPermutation(a: seq<Row>, b: seq<Row>, today: int)
    requires multiset(a) == multiset(b)
    ensures Summarize(a, today).Some? == Summarize(b, today).Some?
    ensures Summarize(a, today).Some? ==>
      && Summarize(a, today).value.count == Summarize(b, today).value.count
      && Summarize(a, today).value.monthlyTotal == Summarize(b, today).value.monthlyTotal
      && multiset(Summarize(a, today).value.upcoming) == multiset(Summarize(b, today).value.upcoming)
  {
    assert |a| == |multiset(a)| == |multiset(b)| == |b|;
    MapPermutation(CleanRow, a, b);
    MonthlyTotalPermutation(CleanColumn(a), CleanColumn(b));
    UpcomingCounts(CleanColumn(a), today);
    UpcomingCounts(CleanColumn(b), today);
    var ua, ub := Upcoming(CleanColumn(a), today), Upcoming(CleanColumn(b), today);
    assert multiset(ua) == multiset(ub) by {
      forall x ensures multiset(ua)[x] == multiset(ub)[x] {
      }
    }
  }
}
