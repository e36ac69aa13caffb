/**
 * The sort at the start of the spender: a stable sort of the transaction list
 * by timestamp, oldest first, done in place.
 */
module Sorting {
  import opened Transactions

  /** Non-decreasing by timestamp. */
  predicate SortedByTime(s: seq<Transaction>)
  {
    forall i, j :: 0 <= i < j < |s| ==> s[i].timestamp <= s[j].timestamp
  }

  /** The transactions of s that carry timestamp k, in their order in s. */
  function Ties(s: seq<Transaction>, k: Timestamp): seq<Transaction>
  {
    if s == [] then []
    else Ties(s[..|s| - 1], k) + (if s[|s| - 1].timestamp == k then [s[|s| - 1]] else [])
  }

  /** Inserts x after every element of s whose timestamp is not later than x's. */
  function Insert(x: Transaction, s: seq<Transaction>): seq<Transaction>
  {
    if s == [] then [x]
    else if s[|s| - 1].CompareTo(x) > 0 then Insert(x, s[..|s| - 1]) + [s[|s| - 1]]
    else s + [x]
  }

  /** Reference definition of the sort: insertion of each element, left to right. */
  function SortByTime(s: seq<Transaction>): seq<Transaction>
  {
    if s == [] then [] else Insert(s[|s| - 1], SortByTime(s[..|s| - 1]))
  }

  lemma {:induction false} InsertPermutes(x: Transaction, s: seq<Transaction>)
    ensures multiset(Insert(x, s)) == multiset(s) + multiset{x}
  {
    if s != [] && s[|s| - 1].CompareTo(x) > 0 {
      var init, last := s[..|s| - 1], s[|s| - 1];
      InsertPermutes(x, init);
      assert s == init + [last];
    }
  }

  lemma {:induction false} InsertSorted(x: Transaction, s: seq<Transaction>)
    requires SortedByTime(s)
    ensures SortedByTime(Insert(x, s))
  {
    if s != [] && s[|s| - 1].CompareTo(x) > 0 {
      var init, last := s[..|s| - 1], s[|s| - 1];
      InsertSorted(x, init);
      InsertPermutes(x, init);
      var r := Insert(x, init);
      forall i | 0 <= i < |r| ensures r[i].timestamp <= last.timestamp {
        assert r[i] in multiset(r);
        assert r[i] == x || r[i] in init;
      }
    }
  }

  lemma {:induction false} InsertTies(x: Transaction, s: seq<Transaction>, k: Timestamp)
    requires SortedByTime(s)
    ensures Ties(Insert(x, s), k) == Ties(s, k) + (if x.timestamp == k then [x] else [])
  {
    if s == [] {
      assert Insert(x, s) == [x];
      assert [x][..0] == [];
    } else if s[|s| - 1].CompareTo(x) > 0 {
      var init, last := s[..|s| - 1], s[|s| - 1];
      InsertTies(x, init, k);
      var r := Insert(x, init);
      assert (r + [last])[..|r + [last]| - 1] == r;
    } else {
      assert (s + [x])[..|s + [x]| - 1] == s;
    }
  }

  lemma {:induction false} InsertDistinct(x: Transaction, s: seq<Transaction>)
    requires Distinct(s) && x !in s
    ensures Distinct(Insert(x, s))
  {
    if s != [] && s[|s| - 1].CompareTo(x) > 0 {
      var init, last := s[..|s| - 1], s[|s| - 1];
      assert s == init + [last];
      InsertDistinct(x, init);
      InsertPermutes(x, init);
      var r := Insert(x, init);
      assert last !in multiset(r);
    }
  }

  /** The reference sort returns a permutation of its input. */
  lemma {:induction false} SortByTimePermutes(s: seq<Transaction>)
    ensures multiset(SortByTime(s)) == multiset(s)
  {
    if s != [] {
      var init, last := s[..|s| - 1], s[|s| - 1];
      calc {
        multiset(SortByTime(s));
        multiset(Insert(last, SortByTime(init)));
        { InsertPermutes(last, SortByTime(init)); }
        multiset(SortByTime(init)) + multiset{last};
        { SortByTimePermutes(init); }
        multiset(init) + multiset{last};
        multiset(init + [last]);
        { assert s == init + [last]; }
        multiset(s);
      }
    }
  }

  /** The reference sort puts the list in timestamp order, oldest first. */
  lemma {:induction false} SortByTimeSorted(s: seq<Transaction>)
    ensures SortedByTime(SortByTime(s))
  {
    if s != [] {
      var init := s[..|s| - 1];
      SortByTimeSorted(init);
      InsertSorted(s[|s| - 1], SortByTime(init));
    }
  }

  /** The sort is stable: transactions with equal timestamps keep their relative order. */
  lemma {:induction false} SortByTimeIsStable(s: seq<Transaction>, k: Timestamp)
    ensures Ties(SortByTime(s), k) == Ties(s, k)
  {
    if s != [] {
      var init, last := s[..|s| - 1], s[|s| - 1];
      SortByTimeIsStable(init, k);
      SortByTimeSorted(init);
      InsertTies(last, SortByTime(init), k);
    }
  }

  /** Sorting a list of distinct transactions leaves them distinct. */
  lemma {:induction false} SortByTimeDistinct(s: seq<Transaction>)
    requires Distinct(s)
    ensures Distinct(SortByTime(s))
  {
    if s != [] {
      var init, last := s[..|s| - 1], s[|s| - 1];
      assert Distinct(init);
      SortByTimeDistinct(init);
      SortByTimePermutes(init);
      assert last !in multiset(init);
      InsertDistinct(last, SortByTime(init));
    }
  }

  /** Insertion puts x just after the last element that is not later than x. */
  lemma {:induction false} InsertAt(x: Transaction, s: seq<Transaction>, j: nat)
    requires j <= |s|
    requires j == 0 || s[j - 1].timestamp <= x.timestamp
    requires forall m :: j <= m < |s| ==> s[m].timestamp > x.timestamp
    ensures Insert(x, s) == s[..j] + [x] + s[j..]
    decreases |s|
  {
    if j < |s| {
      var init, last := s[..|s| - 1], s[|s| - 1];
      InsertAt(x, init, j);
      assert init[..j] == s[..j];
      assert init[j..] + [last] == s[j..];
    } else {
      assert s[..j] == s;
    }
  }

  /** One pass of the insertion sort: moves a[i] left past every earlier, strictly later transaction. */
  method InsertLast(a: array<Transaction>, i: nat)
    requires i < a.Length
    modifies a
    ensures a[..i + 1] == Insert(old(a[i]), old(a[..i]))
    ensures a[i + 1..] == old(a[i + 1..])
  {
    ghost var prefix := a[..i];
    var x := a[i];
    var j := i;
    while j > 0 && a[j - 1].CompareTo(a[j]) > 0
      invariant 0 <= j <= i
      invariant a[j] == x
      invariant forall m :: 0 <= m < j ==> a[m] == prefix[m]
      invariant forall m :: j < m <= i ==> a[m] == prefix[m - 1]
      invariant forall m :: j <= m < i ==> prefix[m].timestamp > x.timestamp
      invariant forall m :: i < m < a.Length ==> a[m] == old(a[m])
    {
      a[j - 1], a[j] := a[j], a[j - 1];
      j := j - 1;
    }
    InsertAt(x, prefix, j);
    assert a[..i + 1] == prefix[..j] + [x] + prefix[j..];
    assert a[i + 1..] == old(a[i + 1..]);
  }

  /** Collections.sort on the list: a stable in-place sort, here by insertion through adjacent swaps. */
  method SortByTimestamp(a: array<Transaction>)
    modifies a
    ensures a[..] == SortByTime(old(a[..]))
  {
    ghost var before := a[..];
    var i := 0;
    while i < a.Length
      invariant 0 <= i <= a.Length
      invariant a[..i] == SortByTime(before[..i])
      invariant a[i..] == before[i..]
    {
      ghost var sortedPrefix := a[..i];
      assert a[i] == before[i];
      assert a[i + 1..] == before[i + 1..];
      InsertLast(a, i);
      assert a[..i + 1] == Insert(before[i], sortedPrefix);
      assert before[..i + 1][..i] == before[..i];
      assert before[..i + 1][i] == before[i];
      i := i + 1;
    }
    assert a[..] == a[..a.Length];
    assert before == before[..a.Length];
  }
}
