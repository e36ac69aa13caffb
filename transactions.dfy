/**
 * The transaction record of the point ledger: who granted the points, how many
 * of them are still unspent, and when they were granted.
 */
module Transactions {

  /** Timestamps are an abstract, totally ordered key; parsing them is not modelled. */
  type Timestamp = int

  /** The value held by one transaction at one moment. */
  datatype Record = Record(payer: string, points: int, timestamp: Timestamp)

  /** A transaction object: payer and timestamp are fixed, points are updated while spending. */
  class Transaction {
    const payer: string
    var points: int
    const timestamp: Timestamp

    constructor (payer: string, points: int, timestamp: Timestamp)
      ensures this.payer == payer && this.points == points && this.timestamp == timestamp
    {
      this.payer := payer;
      this.points := points;
      this.timestamp := timestamp;
    }

    method SetPoints(points: int)
      modifies this
      ensures this.points == points
    {
      this.points := points;
    }

    /** Orders transactions by timestamp alone: negative, zero or positive as this one is earlier, simultaneous or later. */
    function CompareTo(other: Transaction): (r: int)
      ensures r < 0 <==> timestamp < other.timestamp
      ensures r == 0 <==> timestamp == other.timestamp
      ensures r > 0 <==> timestamp > other.timestamp
    {
      if timestamp < other.timestamp then -1
      else if timestamp == other.timestamp then 0
      else 1
    }

    ghost function View(): Record
      reads this
    {
      Record(payer, points, timestamp)
    }
  }

  /** The values currently held by a list of transactions, position by position. */
  ghost function Records(s: seq<Transaction>): seq<Record>
    reads s
  {
    seq(|s|, j reads s requires 0 <= j < |s| => s[j].View())
  }

  /** One record per transaction, each the values that transaction holds. */
  lemma RecordsIndex(s: seq<Transaction>)
    ensures |Records(s)| == |s|
    ensures forall j :: 0 <= j < |s| ==> Records(s)[j] == s[j].View()
  {
  }

  lemma RecordsSnoc(s: seq<Transaction>, t: Transaction)
    ensures Records(s + [t]) == Records(s) + [t.View()]
  {
    RecordsIndex(s);
    RecordsIndex(s + [t]);
    assert Records(s + [t])[..|s|] == Records(s);
  }

  /** No transaction object occurs twice in the list. */
  predicate Distinct(s: seq<Transaction>)
  {
    forall i, j :: 0 <= i < j < |s| ==> s[i] != s[j]
  }

  lemma DistinctSnoc(s: seq<Transaction>, t: Transaction)
    requires Distinct(s) && t !in s
    ensures Distinct(s + [t])
  {
  }

  /** CompareTo is a consistent total preorder, as Comparable requires. */
  lemma CompareToIsTotalPreorder(x: Transaction, y: Transaction, z: Transaction)
    ensures x.CompareTo(x) == 0
    ensures x.CompareTo(y) <= 0 || y.CompareTo(x) <= 0
    ensures (x.CompareTo(y) < 0) == (y.CompareTo(x) > 0)
    ensures x.CompareTo(y) <= 0 && y.CompareTo(z) <= 0 ==> x.CompareTo(z) <= 0
  {
  }
}
