/**
 * The spender: sorts the caller's list in place, oldest first, then walks it
 * greedily, lowering each visited transaction and the payer's delta.
 */
module Spender {
  import opened Transactions
  import opened Sorting
  import opened SpendSpec

  /** Reads back the values of a list whose first |taken| transactions were lowered. */
  lemma RecordsApplied(s: seq<Transaction>, rs: seq<Record>, taken: seq<int>)
    requires |s| == |rs| && |taken| <= |rs|
    requires forall j :: 0 <= j < |s| ==>
      s[j].payer == rs[j].payer && s[j].timestamp == rs[j].timestamp
    requires forall j :: 0 <= j < |s| ==> s[j].points == Applied(rs, taken)[j].points
    ensures Records(s) == Applied(rs, taken)
  {
    var now, want := Records(s), Applied(rs, taken);
    RecordsIndex(s);
    forall j | 0 <= j < |s| ensures now[j] == want[j] {
    }
  }

  /** Before the loop, the list holds the records unchanged. */
  lemma AppliedNone(rs: seq<Record>)
    ensures Applied(rs, []) == rs
  {
  }

  /** Lowering the next record is one more take. */
  lemma AppliedSnoc(rs: seq<Record>, taken: seq<int>, take: int)
    requires |taken| < |rs|
    ensures Applied(rs, taken + [take])
            == Applied(rs, taken)[|taken| := rs[|taken|].(points := rs[|taken|].points - take)]
  {
  }

  /** The round of the loop that visits record i, spelled out. */
  lemma RunVisitAt(amount: int, rs: seq<Record>, i: nat, remaining: int,
                   balances: map<string, int>, taken: seq<int>, payer: string, points: int)
    requires i < |rs| && Run(amount, rs, i) == Pass(remaining, balances, taken)
    requires remaining > 0 && rs[i].payer == payer && rs[i].points == points
    ensures var take := Min(points, remaining);
      Run(amount, rs, i + 1)
      == Pass(remaining - take, balances[payer := GetOrDefault(balances, payer) - take], taken + [take])
  {
  }

  /** One turn of the consumption loop: lowers the i-th transaction. */
  method ConsumeOne(pointsToSpend: int, transactions: array<Transaction>, i: nat, ghost rs: seq<Record>,
                    remaining: int, payerBalances: map<string, int>, ghost taken: seq<int>, ghost view: seq<Record>)
    returns (remaining': int, payerBalances': map<string, int>, ghost taken': seq<int>, ghost view': seq<Record>)
    requires Distinct(transactions[..]) && i < transactions.Length == |rs|
    requires Run(pointsToSpend, rs, i) == Pass(remaining, payerBalances, taken) && remaining > 0
    requires |taken| == i && view == Applied(rs, taken) && |view| == |rs|
    requires forall j :: 0 <= j < |rs| ==> transactions[j].points == view[j].points
    requires transactions[i].payer == rs[i].payer
    modifies transactions[i]
    ensures Run(pointsToSpend, rs, i + 1) == Pass(remaining', payerBalances', taken')
    ensures |taken'| == i + 1 && view' == Applied(rs, taken') && |view'| == |rs|
    ensures forall j :: 0 <= j < |rs| ==> transactions[j].points == view'[j].points
  {
    var transaction := transactions[i];
    var payer := transaction.payer;
    var points := transaction.points;
    RunVisitAt(pointsToSpend, rs, i, remaining, payerBalances, taken, payer, points);
    // The source reads a counter named `pointsAvail` here, which it never declares;
    // the only sensible reading is the running count of points still to spend.
    var take := Min(points, remaining);
    transaction.SetPoints(points - take);
    payerBalances' := payerBalances[payer := GetOrDefault(payerBalances, payer) - take];
    remaining' := remaining - take;
    AppliedSnoc(rs, taken, take);
    taken' := taken + [take];
    view' := view[i := view[i].(points := points - take)];
    forall j | 0 <= j < |rs| && j != i
      ensures transactions[j] != transaction
    {
      assert transactions[..][j] == transactions[j];
    }
  }

  /** The consumption loop over an already sorted list. The list itself is not reordered;
      the transactions it holds are updated in place. */
  method ConsumeInOrder(pointsToSpend: int, transactions: array<Transaction>)
    returns (payerBalances: map<string, int>)
    requires Distinct(transactions[..])
    modifies set t | t in transactions[..]
    ensures var s := Spend(pointsToSpend, old(Records(transactions[..])));
      && payerBalances == s.balances
      && Records(transactions[..]) == Applied(old(Records(transactions[..])), s.taken)
  {
    ghost var rs := Records(transactions[..]);
    RecordsIndex(transactions[..]);
    ghost var taken: seq<int> := [];
    ghost var view := rs;
    AppliedNone(rs);
    var n := transactions.Length;
    var remaining := pointsToSpend;
    payerBalances := map[];
    var i := 0;
    while i < n
      invariant 0 <= i <= n
      invariant Run(pointsToSpend, rs, i) == Pass(remaining, payerBalances, taken)
      invariant |taken| == i
      invariant view == Applied(rs, taken) && |view| == n
      invariant forall j :: 0 <= j < n ==> transactions[j].points == view[j].points
    {
      if remaining <= 0 {
        break;
      }
      remaining, payerBalances, taken, view :=
        ConsumeOne(pointsToSpend, transactions, i, rs, remaining, payerBalances, taken, view);
      i := i + 1;
    }
    if i < n {
      RunStopped(pointsToSpend, rs, i, n);
    }
    RecordsApplied(transactions[..], rs, taken);
  }

  /** spendPoints: sorts the list by timestamp (stably), then consumes points oldest first.
      The caller's list ends up sorted and its transactions lowered; the result maps each
      visited payer to minus what was taken from it. */
  method SpendPoints(pointsToSpend: int, transactions: array<Transaction>)
    returns (payerBalances: map<string, int>)
    requires Distinct(transactions[..])
    modifies transactions, set t | t in transactions[..]
    ensures transactions[..] == SortByTime(old(transactions[..]))
    ensures var sorted := old(Records(SortByTime(transactions[..])));
      var s := Spend(pointsToSpend, sorted);
      && payerBalances == s.balances
      && Records(transactions[..]) == Applied(sorted, s.taken)
  {
    ghost var before := transactions[..];
    ghost var sorted := SortByTime(before);
    ghost var rs := Records(sorted);
    SortByTimestamp(transactions);
    assert Records(sorted) == rs;
    SortByTimeDistinct(before);
    SortByTimePermutes(before);
    forall t | t in sorted ensures t in before {
      assert t in multiset(sorted);
    }
    payerBalances := ConsumeInOrder(pointsToSpend, transactions);
  }
}
