/**
 * The greedy, oldest-first consumption of points, as a function of the values
 * held by the already sorted list, and the properties it has.
 */
module SpendSpec {
  import opened Transactions

  /** The state of the pass after some records: points still to spend, the per-payer
      deltas so far, and the points taken from each record visited so far. */
  datatype Pass = Pass(remaining: int, balances: map<string, int>, taken: seq<int>)

  /** Math.min. */
  function Min(x: int, y: int): int
  {
    if x <= y then x else y
  }

  /** Map.getOrDefault with default 0. */
  function GetOrDefault(m: map<string, int>, payer: string): int
  {
    if payer in m then m[payer] else 0
  }

  /** One round of the loop: stop once nothing remains, otherwise take min(points, remaining) from r. */
  function Step(s: Pass, r: Record): Pass
  {
    if s.remaining <= 0 then s
    else
      var take := Min(r.points, s.remaining);
      Pass(s.remaining - take,
           s.balances[r.payer := GetOrDefault(s.balances, r.payer) - take],
           s.taken + [take])
  }

  /** The state after the loop has been offered the first k records. */
  function Run(amount: int, rs: seq<Record>, k: nat): Pass
    requires k <= |rs|
  {
    if k == 0 then Pass(amount, map[], []) else Step(Run(amount, rs, k - 1), rs[k - 1])
  }

  /** The state after the whole list. */
  function Spend(amount: int, rs: seq<Record>): Pass
  {
    Run(amount, rs, |rs|)
  }

  /** The records after the pass: each visited record lowered by what was taken from it. */
  function Applied(rs: seq<Record>, taken: seq<int>): seq<Record>
  {
    seq(|rs|, j requires 0 <= j < |rs| =>
      if j < |taken| then rs[j].(points := rs[j].points - taken[j]) else rs[j])
  }

  function Sum(xs: seq<int>): int
  {
    if xs == [] then 0 else Sum(xs[..|xs| - 1]) + xs[|xs| - 1]
  }

  function TotalPoints(rs: seq<Record>): int
  {
    if rs == [] then 0 else TotalPoints(rs[..|rs| - 1]) + rs[|rs| - 1].points
  }

  /** What was taken from the records of one payer among the first |taken| records. */
  function PayerTaken(payer: string, rs: seq<Record>, taken: seq<int>): int
    requires |taken| <= |rs|
  {
    if taken == [] then 0
    else PayerTaken(payer, rs, taken[..|taken| - 1])
         + (if rs[|taken| - 1].payer == payer then taken[|taken| - 1] else 0)
  }

  /** The sum of the values of a map. */
  ghost function MapSum(m: map<string, int>): int
    decreases m.Keys
  {
    if m == map[] then 0 else var k :| k in m; m[k] + MapSum(m - {k})
  }

  lemma {:induction false} MapSumRemove(m: map<string, int>, k: string)
    requires k in m
    ensures MapSum(m) == m[k] + MapSum(m - {k})
    decreases m.Keys
  {
    var c :| c in m && MapSum(m) == m[c] + MapSum(m - {c});
    if c != k {
      MapSumRemove(m - {c}, k);
      MapSumRemove(m - {k}, c);
      assert m - {c} - {k} == m - {k} - {c};
    }
  }

  lemma MapSumUpdate(m: map<string, int>, k: string, v: int)
    ensures MapSum(m[k := v]) == MapSum(m) - GetOrDefault(m, k) + v
  {
    MapSumRemove(m[k := v], k);
    if k in m {
      MapSumRemove(m, k);
      assert m[k := v] - {k} == m - {k};
    } else {
      assert m[k := v] - {k} == m;
    }
  }

  lemma SumSnoc(xs: seq<int>, x: int)
    ensures Sum(xs + [x]) == Sum(xs) + x
  {
    assert (xs + [x])[..|xs|] == xs;
  }

  /** Once nothing remains to spend, the later records change nothing: the loop's break. */
  lemma {:induction false} RunStopped(amount: int, rs: seq<Record>, k: nat, k': nat)
    requires k <= k' <= |rs|
    requires Run(amount, rs, k).remaining <= 0
    ensures Run(amount, rs, k') == Run(amount, rs, k)
    decreases k'
  {
    if k' > k {
      RunStopped(amount, rs, k, k' - 1);
    }
  }

  /** What was still to spend when record j was reached, given the takes before it. */
  function RemainingBefore(amount: int, taken: seq<int>, j: nat): int
    requires j <= |taken|
  {
    amount - Sum(taken[..j])
  }

  /** The shape of a state reached after offering the first k records: a prefix was
      visited, and if it is shorter than k the loop has stopped. */
  predicate Visited(rs: seq<Record>, k: nat, s: Pass)
  {
    && k <= |rs|
    && |s.taken| <= k
    && (|s.taken| < k ==> s.remaining <= 0)
  }

  /** A visited shape in which every point taken is accounted for twice: once in what
      remains, once in the balances. */
  ghost predicate Reached(amount: int, rs: seq<Record>, k: nat, s: Pass)
  {
    && Visited(rs, k, s)
    && s.remaining + Sum(s.taken) == amount
    && s.remaining == amount + MapSum(s.balances)
  }

  /** Every visited record was reached with something left and lowered by min(points, remaining). */
  ghost predicate TakesMin(amount: int, rs: seq<Record>, s: Pass)
  {
    && |s.taken| <= |rs|
    && forall j :: 0 <= j < |s.taken| ==>
         && RemainingBefore(amount, s.taken, j) > 0
         && s.taken[j] == Min(rs[j].points, RemainingBefore(amount, s.taken, j))
  }

  /** The keys of the delta map are the payers of the visited records, and each delta is
      minus what was taken from that payer. */
  ghost predicate BalancesMatch(rs: seq<Record>, s: Pass, payer: string)
  {
    && |s.taken| <= |rs|
    && (payer in s.balances <==> exists j :: 0 <= j < |s.taken| && rs[j].payer == payer)
    && GetOrDefault(s.balances, payer) == -PayerTaken(payer, rs, s.taken)
  }

  /** The bounds that hold when no points are negative. */
  ghost predicate Bounded(rs: seq<Record>, s: Pass)
  {
    && s.remaining >= 0
    && |s.taken| <= |rs|
    && (forall j :: 0 <= j < |s.taken| ==> 0 <= s.taken[j] <= rs[j].points)
    && (forall p :: p in s.balances ==> s.balances[p] <= 0)
  }

  lemma StepReached(amount: int, rs: seq<Record>, k: nat, s: Pass)
    requires 0 < k <= |rs| && Reached(amount, rs, k - 1, s)
    ensures Reached(amount, rs, k, Step(s, rs[k - 1]))
  {
    if s.remaining > 0 {
      var r := rs[k - 1];
      var take := Min(r.points, s.remaining);
      SumSnoc(s.taken, take);
      MapSumUpdate(s.balances, r.payer, GetOrDefault(s.balances, r.payer) - take);
    }
  }

  /** The shape and conservation facts hold after every prefix: what was taken plus what
      remains is the amount asked for, and the remaining count is the amount plus the sum
      of the payer deltas. Holds for negative points too. */
  lemma {:induction false} RunConserves(amount: int, rs: seq<Record>, k: nat)
    requires k <= |rs|
    ensures Reached(amount, rs, k, Run(amount, rs, k))
  {
    if k > 0 {
      RunConserves(amount, rs, k - 1);
      StepReached(amount, rs, k, Run(amount, rs, k - 1));
    }
  }

  lemma StepTakesMin(amount: int, rs: seq<Record>, k: nat, s: Pass)
    requires 0 < k <= |rs| && Reached(amount, rs, k - 1, s) && TakesMin(amount, rs, s)
    ensures TakesMin(amount, rs, Step(s, rs[k - 1]))
  {
    if s.remaining > 0 {
      var taken := Step(s, rs[k - 1]).taken;
      assert taken == s.taken + [Min(rs[k - 1].points, s.remaining)];
      forall j | 0 <= j < |taken|
        ensures RemainingBefore(amount, taken, j) > 0
        ensures taken[j] == Min(rs[j].points, RemainingBefore(amount, taken, j))
      {
        assert taken[..j] == s.taken[..j];
        if j == |s.taken| {
          assert s.taken[..j] == s.taken;
          assert RemainingBefore(amount, taken, j) == s.remaining;
        } else {
          assert RemainingBefore(amount, taken, j) == RemainingBefore(amount, s.taken, j);
        }
      }
    }
  }

  /** Each visited record was reached with something still to spend and lowered by
      min(its points, what remained). */
  lemma {:induction false} RunTakes(amount: int, rs: seq<Record>, k: nat)
    requires k <= |rs|
    ensures TakesMin(amount, rs, Run(amount, rs, k))
  {
    if k > 0 {
      RunTakes(amount, rs, k - 1);
      RunConserves(amount, rs, k - 1);
      StepTakesMin(amount, rs, k, Run(amount, rs, k - 1));
    }
  }

  lemma StepBalances(amount: int, rs: seq<Record>, k: nat, s: Pass, payer: string)
    requires 0 < k <= |rs| && Visited(rs, k - 1, s) && BalancesMatch(rs, s, payer)
    ensures BalancesMatch(rs, Step(s, rs[k - 1]), payer)
  {
    if s.remaining > 0 {
      var n := |s.taken|;
      var take := Min(rs[n].points, s.remaining);
      var s' := Step(s, rs[n]);
      assert s'.taken == s.taken + [take];
      assert s'.taken[..n] == s.taken;
      assert PayerTaken(payer, rs, s'.taken)
             == PayerTaken(payer, rs, s.taken) + (if rs[n].payer == payer then take else 0);
      if rs[n].payer == payer {
        assert 0 <= n < |s'.taken| && rs[n].payer == payer;
      } else {
        assert (payer in s'.balances) == (payer in s.balances);
        assert (exists j :: 0 <= j < |s'.taken| && rs[j].payer == payer)
               == (exists j :: 0 <= j < n && rs[j].payer == payer);
      }
    }
  }

  /** A payer has a delta exactly when one of its records was visited (even if nothing was
      taken from it), and the delta is minus what was taken from its visited records. */
  lemma {:induction false} RunBalances(amount: int, rs: seq<Record>, k: nat, payer: string)
    requires k <= |rs|
    ensures BalancesMatch(rs, Run(amount, rs, k), payer)
  {
    if k > 0 {
      RunBalances(amount, rs, k - 1, payer);
      RunConserves(amount, rs, k - 1);
      StepBalances(amount, rs, k, Run(amount, rs, k - 1), payer);
    }
  }

  lemma StepBounded(amount: int, rs: seq<Record>, k: nat, s: Pass)
    requires 0 < k <= |rs| && Reached(amount, rs, k - 1, s) && Bounded(rs, s)
    requires rs[k - 1].points >= 0
    ensures Bounded(rs, Step(s, rs[k - 1]))
  {
    if s.remaining > 0 {
      var taken := Step(s, rs[k - 1]).taken;
      assert taken == s.taken + [Min(rs[k - 1].points, s.remaining)];
      assert forall j :: 0 <= j < |s.taken| ==> taken[j] == s.taken[j];
    }
  }

  /** With no negative points and a non-negative amount: the remaining count never goes
      negative, each take lies between 0 and the record's points, and every delta is <= 0. */
  lemma {:induction false} RunBounds(amount: int, rs: seq<Record>, k: nat)
    requires k <= |rs|
    requires amount >= 0
    requires forall j :: 0 <= j < |rs| ==> rs[j].points >= 0
    ensures Bounded(rs, Run(amount, rs, k))
  {
    if k > 0 {
      RunBounds(amount, rs, k - 1);
      RunConserves(amount, rs, k - 1);
      StepBounded(amount, rs, k, Run(amount, rs, k - 1));
    }
  }

  lemma StepSaturates(amount: int, rs: seq<Record>, k: nat, s: Pass)
    requires 0 < k <= |rs| && s.remaining >= 0 && s.remaining + Sum(s.taken) == amount
    requires rs[k - 1].points >= 0
    requires Sum(s.taken) == Min(amount, TotalPoints(rs[..k - 1]))
    ensures Sum(Step(s, rs[k - 1]).taken) == Min(amount, TotalPoints(rs[..k]))
  {
    var total := TotalPoints(rs[..k - 1]);
    assert rs[..k][..k - 1] == rs[..k - 1];
    assert TotalPoints(rs[..k]) == total + rs[k - 1].points;
    if s.remaining > 0 {
      SumSnoc(s.taken, Min(rs[k - 1].points, s.remaining));
    }
  }

  /** With no negative points and a non-negative amount, the pass spends
      min(amount, total points of the records offered): it saturates silently. */
  lemma {:induction false} RunSaturates(amount: int, rs: seq<Record>, k: nat)
    requires k <= |rs|
    requires amount >= 0
    requires forall j :: 0 <= j < |rs| ==> rs[j].points >= 0
    ensures Sum(Run(amount, rs, k).taken) == Min(amount, TotalPoints(rs[..k]))
  {
    if k > 0 {
      RunSaturates(amount, rs, k - 1);
      RunConserves(amount, rs, k - 1);
      RunBounds(amount, rs, k - 1);
      StepSaturates(amount, rs, k, Run(amount, rs, k - 1));
    }
  }

  /** Spending a non-positive amount visits nothing: no deltas and no record changes. */
  lemma SpendNothing(amount: int, rs: seq<Record>)
    requires amount <= 0
    ensures Spend(amount, rs).balances == map[]
    ensures Spend(amount, rs).taken == []
    ensures Applied(rs, Spend(amount, rs).taken) == rs
  {
    RunStopped(amount, rs, 0, |rs|);
  }

  /** The outcome record by record: the visited records are a prefix, each reached with
      something left and lowered by min(its points, what remained); the pass only leaves
      records unvisited once nothing remains, and those keep their points. */
  lemma SpendOutcome(amount: int, rs: seq<Record>)
    ensures var s := Spend(amount, rs);
      && |s.taken| <= |rs|
      && s.remaining == RemainingBefore(amount, s.taken, |s.taken|)
      && (|s.taken| < |rs| ==> s.remaining <= 0)
      && |Applied(rs, s.taken)| == |rs|
      && forall j :: 0 <= j < |rs| ==>
           && Applied(rs, s.taken)[j].payer == rs[j].payer
           && Applied(rs, s.taken)[j].timestamp == rs[j].timestamp
           && (j < |s.taken| ==>
                 && RemainingBefore(amount, s.taken, j) > 0
                 && Applied(rs, s.taken)[j].points
                    == rs[j].points - Min(rs[j].points, RemainingBefore(amount, s.taken, j)))
           && (j >= |s.taken| ==> Applied(rs, s.taken)[j] == rs[j])
  {
    RunConserves(amount, rs, |rs|);
    RunTakes(amount, rs, |rs|);
    var s := Spend(amount, rs);
    assert s.taken[..|s.taken|] == s.taken;
  }

  /** The returned map: a payer is a key exactly when one of its records was visited, and
      its value is minus what was taken from it; the values sum to minus what was spent. */
  lemma SpendBalances(amount: int, rs: seq<Record>, payer: string)
    ensures var s := Spend(amount, rs);
      && |s.taken| <= |rs|
      && (payer in s.balances <==> exists j :: 0 <= j < |s.taken| && rs[j].payer == payer)
      && GetOrDefault(s.balances, payer) == -PayerTaken(payer, rs, s.taken)
      && MapSum(s.balances) == -Sum(s.taken)
      && s.remaining == amount + MapSum(s.balances)
  {
    RunBalances(amount, rs, |rs|, payer);
    RunConserves(amount, rs, |rs|);
  }

  /** With no negative points and a non-negative amount: nothing goes negative, no record
      gains points, every delta is at most 0, and exactly min(amount, total points) is spent. */
  lemma SpendWithinBounds(amount: int, rs: seq<Record>)
    requires amount >= 0
    requires forall j :: 0 <= j < |rs| ==> rs[j].points >= 0
    ensures var s := Spend(amount, rs);
      && s.remaining >= 0
      && (forall p :: p in s.balances ==> s.balances[p] <= 0)
      && |s.taken| <= |rs|
      && |Applied(rs, s.taken)| == |rs|
      && (forall j :: 0 <= j < |rs| ==> 0 <= Applied(rs, s.taken)[j].points <= rs[j].points)
      && Sum(s.taken) == Min(amount, TotalPoints(rs))
      && -MapSum(s.balances) == Min(amount, TotalPoints(rs))
  {
    RunBounds(amount, rs, |rs|);
    RunSaturates(amount, rs, |rs|);
    RunConserves(amount, rs, |rs|);
    assert rs[..|rs|] == rs;
  }

  /** A spend of 5000 over four records, sorted oldest first, where DANNON's -200 correction
      is reached before any DANNON grant has been drawn from. The correction raises DANNON's
      delta to +200 and adds 200 to what is left to spend, which MILLER COORS then supplies;
      the correction record's own points rise from -200 to 0. Netting the correction against
      DANNON's only grant (the later 1000) would instead give UNILEVER=-200 and
      MILLER COORS=-4800, with DANNON absent. */
  lemma NegativeCorrectionScenario()
    ensures var rs := [Record("UNILEVER", 200, 1), Record("DANNON", -200, 2),
                       Record("MILLER COORS", 10000, 3), Record("DANNON", 1000, 4)];
      && Spend(5000, rs)
         == Pass(0, map["UNILEVER" := -200, "DANNON" := 200, "MILLER COORS" := -5000], [200, -200, 5000])
      && Applied(rs, Spend(5000, rs).taken)
         == [Record("UNILEVER", 0, 1), Record("DANNON", 0, 2),
             Record("MILLER COORS", 5000, 3), Record("DANNON", 1000, 4)]
  {
    var rs := [Record("UNILEVER", 200, 1), Record("DANNON", -200, 2),
               Record("MILLER COORS", 10000, 3), Record("DANNON", 1000, 4)];
    assert Run(5000, rs, 1) == Pass(4800, map["UNILEVER" := -200], [200]);
    assert Run(5000, rs, 2) == Pass(5000, map["UNILEVER" := -200, "DANNON" := 200], [200, -200]);
    assert Run(5000, rs, 3)
           == Pass(0, map["UNILEVER" := -200, "DANNON" := 200, "MILLER COORS" := -5000], [200, -200, 5000]);
  }

  /** The same spend with a DANNON grant of 300 older than every other record. The correction
      is now reached after 300 DANNON points were drawn, so giving 200 of them back leaves
      DANNON=-100, which is also what netting the correction against that grant gives; only
      the correction record's own points still rise from -200 to 0. */
  lemma CorrectionAfterGrantScenario()
    ensures var rs := [Record("DANNON", 300, 0), Record("UNILEVER", 200, 1), Record("DANNON", -200, 2),
                       Record("MILLER COORS", 10000, 3), Record("DANNON", 1000, 4)];
      && Spend(5000, rs)
         == Pass(0, map["DANNON" := -100, "UNILEVER" := -200, "MILLER COORS" := -4700], [300, 200, -200, 4700])
      && Applied(rs, Spend(5000, rs).taken)
         == [Record("DANNON", 0, 0), Record("UNILEVER", 0, 1), Record("DANNON", 0, 2),
             Record("MILLER COORS", 5300, 3), Record("DANNON", 1000, 4)]
  {
    var rs := [Record("DANNON", 300, 0), Record("UNILEVER", 200, 1), Record("DANNON", -200, 2),
               Record("MILLER COORS", 10000, 3), Record("DANNON", 1000, 4)];
    assert Run(5000, rs, 1) == Pass(4700, map["DANNON" := -300], [300]);
    assert Run(5000, rs, 2) == Pass(4500, map["DANNON" := -300, "UNILEVER" := -200], [300, 200]);
    assert Run(5000, rs, 3) == Pass(4700, map["DANNON" := -100, "UNILEVER" := -200], [300, 200, -200]);
    assert Run(5000, rs, 4)
           == Pass(0, map["DANNON" := -100, "UNILEVER" := -200, "MILLER COORS" := -4700], [300, 200, -200, 4700]);
  }

  /** A correction record (negative points) reached while something remains is "drawn" with a
      negative take: the payer's delta and what remains to spend both grow by its size, and the
      record's points rise to 0. This is where the code differs from netting a correction
      against its payer's grants. */
  lemma CorrectionStep(s: Pass, r: Record)
    requires s.remaining > 0 && r.points < 0
    ensures var t := Step(s, r);
      && t.remaining == s.remaining - r.points > s.remaining
      && r.payer in t.balances && t.balances[r.payer] == GetOrDefault(s.balances, r.payer) - r.points
      && t.taken == s.taken + [r.points]
      && r.points - t.taken[|s.taken|] == 0
  {
  }
}
