/** Smooth weighted round-robin on a fixed list of backends, as arithmetic on their current weights:
    every call raises each current weight by its weight, picks the first maximum, and takes the total
    off the pick; every millionth call halves them all. */
module SmoothWeights {
  import opened Collections

  const NORMALIZE_EVERY: nat := 1_000_000

  /** One call: `b` is the first position of the highest raised weight, and pays the total. */
  ghost predicate IsStep(current: seq<int>, weights: seq<int>, b: nat, after: seq<int>) {
    && |current| == |weights| == |after| && b < |weights|
    && (forall i :: 0 <= i < |current| ==>
          && current[i] + weights[i] <= current[b] + weights[b]
          && (i < b ==> current[i] + weights[i] < current[b] + weights[b]))
    && (forall i :: 0 <= i < |current| ==>
          after[i] == current[i] + weights[i] - (if i == b then Sum(weights) else 0))
  }

  /** Go's integer division by two: toward zero. */
  function Half(x: int): (h: int)
    ensures x >= 0 ==> 0 <= x - 2 * h <= 1
    ensures x <= 0 ==> 0 <= 2 * h - x <= 1
  {
    if x >= 0 then x / 2 else -((-x) / 2)
  }

  ghost predicate IsHalved(s: seq<int>, after: seq<int>) {
    |after| == |s| && forall i :: 0 <= i < |s| ==> after[i] == Half(s[i])
  }

  /** `current[k]` are the weights before call `k`, `settled[k]` those it leaves before any halving,
      and `picks[k]` the backend it returns. */
  datatype Run = Run(current: seq<seq<int>>, settled: seq<seq<int>>, picks: seq<nat>)

  ghost predicate IsRun(r: Run, weights: seq<int>) {
    && |r.current| == |r.picks| + 1 && |r.settled| == |r.picks|
    && |r.current[0]| == |weights| && (forall i :: 0 <= i < |weights| ==> r.current[0][i] == 0)
    && (forall k :: 0 <= k < |r.picks| ==> IsCall(r, weights, k))
  }

  ghost predicate IsCall(r: Run, weights: seq<int>, k: nat)
    requires |r.current| == |r.picks| + 1 && |r.settled| == |r.picks| && k < |r.picks|
  {
    && IsStep(r.current[k], weights, r.picks[k], r.settled[k])
    && if (k + 1) % NORMALIZE_EVERY == 0 then IsHalved(r.settled[k], r.current[k + 1])
       else r.current[k + 1] == r.settled[k]
  }

  /** How often backend `i` was picked in the first `t` calls. */
  function Count(picks: seq<nat>, i: nat, t: nat): nat
    requires t <= |picks|
  {
    if t == 0 then 0 else Count(picks, i, t - 1) + (if picks[t - 1] == i then 1 else 0)
  }

  // ---------- sums ----------

  lemma {:induction false} StepSumTo(current: seq<int>, weights: seq<int>, b: nat, after: seq<int>, n: nat)
    requires IsStep(current, weights, b, after) && n <= |weights|
    ensures SumTo(after, n) == SumTo(current, n) + SumTo(weights, n) - if b < n then Sum(weights) else 0
  {
    if n == 0 {
    } else {
      StepSumTo(current, weights, b, after, n - 1);
    }
  }

  /** A call leaves the sum of the current weights as it was. */
  lemma StepSum(current: seq<int>, weights: seq<int>, b: nat, after: seq<int>)
    requires IsStep(current, weights, b, after)
    ensures Sum(after) == Sum(current)
  {
    StepSumTo(current, weights, b, after, |weights|);
  }

  lemma {:induction false} PickIsPositiveTo(current: seq<int>, weights: seq<int>, b: nat, after: seq<int>, n: nat)
    requires IsStep(current, weights, b, after) && n <= |weights| && current[b] + weights[b] <= 0
    ensures SumTo(current, n) + SumTo(weights, n) <= 0
  {
    if n == 0 {
    } else {
      PickIsPositiveTo(current, weights, b, after, n - 1);
    }
  }

  /** So no current weight falls to minus the total: the pick was positive before it paid. */
  lemma StepStaysAbove(current: seq<int>, weights: seq<int>, b: nat, after: seq<int>)
    requires IsStep(current, weights, b, after) && Sum(current) + Sum(weights) > 0
    requires forall i :: 0 <= i < |weights| ==> weights[i] >= 0 && current[i] > -Sum(weights)
    ensures forall i :: 0 <= i < |weights| ==> after[i] > -Sum(weights)
  {
    if current[b] + weights[b] <= 0 {
      PickIsPositiveTo(current, weights, b, after, |weights|);
    }
  }

  lemma {:induction false} SumAtLeastTo(s: seq<int>, low: int, i: nat, n: nat)
    requires i < n <= |s| && forall j :: 0 <= j < |s| ==> s[j] >= low
    ensures SumTo(s, n) >= s[i] + (n - 1) * low
  {
    if n == 1 {
    } else {
      assert (n - 1) * low == (n - 2) * low + low;
      SumAtLeastTo(s, low, if i < n - 1 then i else 0, n - 1);
    }
  }

  // ---------- exact proportionality ----------

  ghost predicate Weights(w: seq<int>) {
    Sum(w) > 0 && forall i :: 0 <= i < |w| ==> w[i] >= 0
  }

  /** The first `t` calls in which no halving shows. */
  ghost predicate IsPlain(r: Run, weights: seq<int>, t: nat) {
    && |r.current| > t && |r.settled| >= t && |r.picks| >= t
    && |r.current[0]| == |weights| && (forall i :: 0 <= i < |weights| ==> r.current[0][i] == 0)
    && forall k :: 0 <= k < t ==> IsPlainCall(r, weights, k)
  }

  ghost predicate IsPlainCall(r: Run, weights: seq<int>, k: nat)
    requires |r.current| > k + 1 && |r.settled| > k && |r.picks| > k
  {
    IsStep(r.current[k], weights, r.picks[k], r.settled[k]) && r.current[k + 1] == r.settled[k]
  }

  /** Without halvings the current weights sum to zero and stay above minus the total. */
  lemma {:induction false} NoneTooFarAhead(r: Run, weights: seq<int>, t: nat)
    requires IsPlain(r, weights, t) && Weights(weights)
    ensures |r.current[t]| == |weights| && Sum(r.current[t]) == 0
    ensures forall i :: 0 <= i < |weights| ==> r.current[t][i] > -Sum(weights)
    decreases t
  {
    if t == 0 {
      SumZero(r.current[0], |weights|);
    } else {
      NoneTooFarAhead(r, weights, t - 1);
      assert IsPlainCall(r, weights, t - 1);
      StepSum(r.current[t - 1], weights, r.picks[t - 1], r.settled[t - 1]);
      StepStaysAbove(r.current[t - 1], weights, r.picks[t - 1], r.settled[t - 1]);
    }
  }

  lemma DebtStep(t: int, w: int, total: int, p: int, c: int, hit: bool, next: int, given: int)
    requires c == (t - 1) * w - total * p
    requires next == c + w - (if hit then total else 0) && given == p + if hit then 1 else 0
    ensures next == t * w - total * given
  {
  }

  lemma NoDebt(w: int, total: int)
    ensures 0 * w - total * 0 == 0
  {
  }

  /** What the halvings among the first `t` calls have taken off a backend's weight. */
  ghost function HalvedOff(r: Run, weights: seq<int>, i: nat, t: nat): int
    requires IsRun(r, weights) && i < |weights| && t <= |r.picks|
  {
    if t == 0 then 0
    else
      assert IsCall(r, weights, t - 1);
      HalvedOff(r, weights, i, t - 1) + r.settled[t - 1][i] - r.current[t][i]
  }

  lemma CallMoves(r: Run, weights: seq<int>, t: nat, i: nat)
    requires IsRun(r, weights) && i < |weights| && 0 < t <= |r.picks|
    ensures |r.current[t - 1]| == |r.settled[t - 1]| == |r.current[t]| == |weights|
    ensures r.settled[t - 1][i] == r.current[t - 1][i] + weights[i] - (if r.picks[t - 1] == i then Sum(weights) else 0)
    ensures Count(r.picks, i, t) == Count(r.picks, i, t - 1) + if r.picks[t - 1] == i then 1 else 0
  {
    assert IsCall(r, weights, t - 1);
  }

  /** Over any number of calls a current weight is what the backend is owed, less what it was given
      and what the halvings took off. */
  lemma {:induction false} CurrentIsDebt(r: Run, weights: seq<int>, t: nat, i: nat)
    requires IsRun(r, weights) && i < |weights| && t <= |r.picks|
    ensures |r.current[t]| == |weights|
    ensures r.current[t][i] + HalvedOff(r, weights, i, t) == t * weights[i] - Sum(weights) * Count(r.picks, i, t)
  {
    if t == 0 {
      NoDebt(weights[i], Sum(weights));
    } else {
      CurrentIsDebt(r, weights, t - 1, i);
      CallMoves(r, weights, t, i);
      DebtStep(t, weights[i], Sum(weights), Count(r.picks, i, t - 1),
               r.current[t - 1][i] + HalvedOff(r, weights, i, t - 1), r.picks[t - 1] == i,
               r.settled[t - 1][i] + HalvedOff(r, weights, i, t - 1), Count(r.picks, i, t));
    }
  }

  lemma {:induction false} PlainDebt(r: Run, weights: seq<int>, t: nat, i: nat)
    requires IsPlain(r, weights, t) && i < |weights|
    ensures |r.current[t]| == |weights|
    ensures r.current[t][i] == t * weights[i] - Sum(weights) * Count(r.picks, i, t)
    decreases t
  {
    if t == 0 {
      NoDebt(weights[i], Sum(weights));
    } else {
      PlainDebt(r, weights, t - 1, i);
      assert IsPlainCall(r, weights, t - 1);
      DebtStep(t, weights[i], Sum(weights), Count(r.picks, i, t - 1), r.current[t - 1][i], r.picks[t - 1] == i,
               r.current[t][i], Count(r.picks, i, t));
    }
  }

  /** While no halving shows, no backend is as much as one pick above its share, nor below it by as
      much as one pick per other backend. */
  lemma FairShare(r: Run, weights: seq<int>, t: nat, i: nat)
    requires IsPlain(r, weights, t) && Weights(weights) && i < |weights|
    ensures Sum(weights) * Count(r.picks, i, t) < t * weights[i] + Sum(weights)
    ensures Sum(weights) * Count(r.picks, i, t) >= t * weights[i] - (|weights| - 1) * (Sum(weights) - 1)
  {
    PlainDebt(r, weights, t, i);
    NoneTooFarAhead(r, weights, t);
    SumAtLeastTo(r.current[t], 1 - Sum(weights), i, |weights|);
    assert (|weights| - 1) * (1 - Sum(weights)) == -((|weights| - 1) * (Sum(weights) - 1));
  }

  /** Every backend's share of `t` calls is a whole number of picks. */
  ghost predicate SharesWhole(weights: seq<int>, t: nat)
    requires Sum(weights) > 0
  {
    forall i :: 0 <= i < |weights| ==> ShareWhole(t, weights[i], Sum(weights))
  }

  predicate ShareWhole(t: int, w: int, total: int)
    requires total > 0
  {
    (t * w) % total == 0
  }

  lemma MultipleAbove(x: int, total: int, p: int)
    requires total > 0 && x % total == 0 && x - total * p > -total
    ensures x - total * p >= 0
  {
    var q := x / total;
    assert x == total * q;
    assert x - total * p == total * (q - p);
    BelowMinusTotal(total, q - p);
  }

  lemma BelowMinusTotal(total: int, x: int)
    requires total > 0
    ensures x < 0 ==> total * x <= -total
    ensures x >= 0 ==> total * x >= 0
  {
  }

  lemma {:induction false} NoneLeft(c: seq<int>, n: nat, i: nat)
    requires i < n <= |c| && forall j :: 0 <= j < n ==> c[j] >= 0
    ensures SumTo(c, n) >= c[i]
  {
    if n == 1 {
    } else {
      NoneLeft(c, n - 1, if i < n - 1 then i else 0);
    }
  }

  /** While no halving shows: whenever all shares are whole, every backend has been picked exactly its
      share, and all current weights are back at zero. */
  lemma PlainProportional(r: Run, weights: seq<int>, t: nat, i: nat)
    requires IsPlain(r, weights, t) && Weights(weights) && SharesWhole(weights, t) && i < |weights|
    ensures Sum(weights) * Count(r.picks, i, t) == t * weights[i]
    ensures |r.current[t]| == |weights| && r.current[t][i] == 0
  {
    NoneTooFarAhead(r, weights, t);
    forall j | 0 <= j < |weights| ensures r.current[t][j] >= 0 {
      PlainDebt(r, weights, t, j);
      assert ShareWhole(t, weights[j], Sum(weights));
      MultipleAbove(t * weights[j], Sum(weights), Count(r.picks, j, t));
    }
    NoneLeft(r.current[t], |weights|, i);
    PlainDebt(r, weights, t, i);
  }

  /** And the current weights are back at zero at no other time. */
  lemma ZeroExactly(r: Run, weights: seq<int>, t: nat)
    requires IsPlain(r, weights, t) && Weights(weights) && |r.current[t]| == |weights|
    ensures (forall i :: 0 <= i < |weights| ==> r.current[t][i] == 0) <==> SharesWhole(weights, t)
  {
    if SharesWhole(weights, t) {
      forall i | 0 <= i < |weights| ensures r.current[t][i] == 0 {
        PlainProportional(r, weights, t, i);
      }
    } else {
      var i :| 0 <= i < |weights| && !ShareWhole(t, weights[i], Sum(weights));
      PlainDebt(r, weights, t, i);
      MultipleOf(Sum(weights), Count(r.picks, i, t));
    }
  }

  lemma MultipleOf(total: int, p: int)
    requires total > 0
    ensures (total * p) % total == 0
  {
    var q, rest := (total * p) / total, (total * p) % total;
    assert total * p == total * q + rest;
    assert total * (p - q) == rest && total * (q - p) == -rest;
    BelowMinusTotal(total, p - q);
    BelowMinusTotal(total, q - p);
  }

  // ---------- when halvings do not show ----------

  lemma MoreMillions(m: nat, w: int, total: int)
    requires total > 0 && ShareWhole(NORMALIZE_EVERY, w, total)
    ensures ShareWhole(m * NORMALIZE_EVERY, w, total)
  {
    var q := (NORMALIZE_EVERY * w) / total;
    assert NORMALIZE_EVERY * w == total * q;
    assert (m * NORMALIZE_EVERY) * w == m * (NORMALIZE_EVERY * w) == total * (m * q) by {
      Reassociate(m, NORMALIZE_EVERY, w, total, q);
    }
    MultipleOf(total, m * q);
  }

  lemma Reassociate(m: int, n: int, w: int, total: int, q: int)
    requires n * w == total * q
    ensures (m * n) * w == m * (n * w) == total * (m * q)
  {
  }

  /** The run up to call `k`, ending with the weights that the call leaves before any halving. */
  ghost function Unhalved(r: Run, k: nat): Run
    requires k < |r.picks| == |r.settled| && |r.current| == |r.picks| + 1
  {
    Run(r.current[..k + 1] + [r.settled[k]], r.settled[..k + 1], r.picks[..k + 1])
  }

  lemma UnhalvedIsPlain(r: Run, weights: seq<int>, k: nat)
    requires IsRun(r, weights) && k < |r.picks| && IsPlain(r, weights, k)
    ensures IsPlain(Unhalved(r, k), weights, k + 1)
  {
    var u := Unhalved(r, k);
    forall j | 0 <= j < k + 1 ensures IsPlainCall(u, weights, j) {
      assert IsCall(r, weights, j);
      assert j < k ==> IsPlainCall(r, weights, j);
    }
  }

  /** A halving does not show when it finds all weights at zero; so none shows before the first one,
      nor ever when all shares of a million calls are whole. */
  lemma {:induction false} RunIsPlain(r: Run, weights: seq<int>, t: nat)
    requires IsRun(r, weights) && Weights(weights) && t <= |r.picks|
    requires t < NORMALIZE_EVERY || SharesWhole(weights, NORMALIZE_EVERY)
    ensures IsPlain(r, weights, t)
    decreases t
  {
    if t == 0 {
    } else {
      var k := t - 1;
      RunIsPlain(r, weights, k);
      assert IsCall(r, weights, k);
      if t % NORMALIZE_EVERY == 0 {
        var u, m := Unhalved(r, k), t / NORMALIZE_EVERY;
        UnhalvedIsPlain(r, weights, k);
        forall j | 0 <= j < |weights| ensures ShareWhole(t, weights[j], Sum(weights)) {
          assert ShareWhole(NORMALIZE_EVERY, weights[j], Sum(weights));
          MoreMillions(m, weights[j], Sum(weights));
        }
        forall j | 0 <= j < |weights| ensures r.settled[k][j] == r.current[t][j] {
          PlainProportional(u, weights, t, j);
        }
        assert r.settled[k] == r.current[t];
      }
      assert IsPlainCall(r, weights, k);
    }
  }

  /** The balancer's arithmetic is exactly proportional: whenever all shares of `t` calls are whole,
      every backend has been picked exactly its share and every weight is zero again, before the
      first halving and, if all shares of a million calls are whole too, for ever. */
  lemma ExactlyProportional(r: Run, weights: seq<int>, t: nat, i: nat)
    requires IsRun(r, weights) && Weights(weights) && i < |weights| && t <= |r.picks| && SharesWhole(weights, t)
    requires t < NORMALIZE_EVERY || SharesWhole(weights, NORMALIZE_EVERY)
    ensures Sum(weights) * Count(r.picks, i, t) == t * weights[i]
    ensures |r.current[t]| == |weights| && r.current[t][i] == 0
  {
    RunIsPlain(r, weights, t);
    PlainProportional(r, weights, t, i);
  }

  lemma CancelTotal(total: int, p: int, rounds: int, w: int)
    requires total > 0 && total * p == (rounds * total) * w
    ensures p == rounds * w
  {
    var x := p - rounds * w;
    assert (rounds * total) * w == total * (rounds * w);
    assert total * x == 0 && total * -x == 0;
    BelowMinusTotal(total, x);
    BelowMinusTotal(total, -x);
  }

  lemma RoundsWhole(weights: seq<int>, rounds: nat)
    requires Sum(weights) > 0
    ensures rounds * Sum(weights) >= 0 && SharesWhole(weights, rounds * Sum(weights))
  {
    forall i | 0 <= i < |weights| ensures ShareWhole(rounds * Sum(weights), weights[i], Sum(weights)) {
      Reassociate(rounds, Sum(weights), weights[i], Sum(weights), weights[i]);
      MultipleOf(Sum(weights), rounds * weights[i]);
    }
  }

  /** In particular after every whole round of as many calls as the total weight. */
  lemma AfterWholeRounds(r: Run, weights: seq<int>, rounds: nat, t: nat, i: nat)
    requires IsRun(r, weights) && Weights(weights) && i < |weights| && t <= |r.picks|
    requires t == rounds * Sum(weights)
    requires t < NORMALIZE_EVERY || SharesWhole(weights, NORMALIZE_EVERY)
    ensures Count(r.picks, i, t) == rounds * weights[i]
  {
    RoundsWhole(weights, rounds);
    ExactlyProportional(r, weights, t, i);
    CancelTotal(Sum(weights), Count(r.picks, i, t), rounds, weights[i]);
  }

  // ---------- bounds over runs with halving ----------

  ghost predicate Bounded(c: seq<int>, weights: seq<int>) {
    && |c| == |weights|
    && -|c| < Sum(c) < |c|
    && forall i :: 0 <= i < |c| ==> c[i] > -Sum(weights)
  }

  ghost predicate PositiveWeights(w: seq<int>) {
    w != [] && forall i :: 0 <= i < |w| ==> w[i] >= 1
  }

  lemma {:induction false} HalvedSumTo(s: seq<int>, after: seq<int>, n: nat)
    requires IsHalved(s, after) && n <= |s|
    ensures SumTo(s, n) - n <= 2 * SumTo(after, n) <= SumTo(s, n) + n
  {
    if n == 0 {
    } else {
      HalvedSumTo(s, after, n - 1);
    }
  }

  lemma {:induction false} TotalAtLeastCount(weights: seq<int>, n: nat)
    requires n <= |weights| && forall i :: 0 <= i < |weights| ==> weights[i] >= 1
    ensures SumTo(weights, n) >= n
  {
    if n == 0 {
    } else {
      TotalAtLeastCount(weights, n - 1);
    }
  }

  lemma StepBounded(current: seq<int>, weights: seq<int>, b: nat, after: seq<int>)
    requires PositiveWeights(weights) && Bounded(current, weights) && IsStep(current, weights, b, after)
    ensures Bounded(after, weights)
  {
    TotalAtLeastCount(weights, |weights|);
    StepSum(current, weights, b, after);
    StepStaysAbove(current, weights, b, after);
  }

  lemma HalvedBounded(s: seq<int>, weights: seq<int>, after: seq<int>)
    requires PositiveWeights(weights) && Bounded(s, weights) && IsHalved(s, after)
    ensures Bounded(after, weights)
  {
    HalvedSumTo(s, after, |s|);
    TotalAtLeastCount(weights, |weights|);
  }

  lemma {:induction false} RunBounded(r: Run, weights: seq<int>, t: nat)
    requires IsRun(r, weights) && PositiveWeights(weights) && t <= |r.picks|
    ensures Bounded(r.current[t], weights)
  {
    if t == 0 {
      TotalAtLeastCount(weights, |weights|);
      SumZero(r.current[0], |weights|);
    } else {
      RunBounded(r, weights, t - 1);
      assert IsCall(r, weights, t - 1);
      StepBounded(r.current[t - 1], weights, r.picks[t - 1], r.settled[t - 1]);
      if t % NORMALIZE_EVERY == 0 {
        HalvedBounded(r.settled[t - 1], weights, r.current[t]);
      }
    }
  }

  lemma BoundedAbove(c: seq<int>, weights: seq<int>, i: nat)
    requires Bounded(c, weights) && i < |c|
    ensures c[i] <= (|c| - 1) * Sum(weights)
  {
    var n, total := |c|, Sum(weights);
    SumAtLeastTo(c, 1 - total, i, n);
    assert (n - 1) * (1 - total) == (n - 1) - (n - 1) * total;
  }

  lemma HalvedLess(x: int)
    ensures x >= 0 ==> 0 <= x - Half(x) <= x
    ensures x <= 0 ==> x <= x - Half(x) <= 0
  {
  }

  /** The halvings in `t` calls. */
  function Halvings(t: nat): nat {
    t / NORMALIZE_EVERY
  }

  lemma HalvingsNext(t: nat)
    requires t > 0
    ensures Halvings(t) == Halvings(t - 1) + if t % NORMALIZE_EVERY == 0 then 1 else 0
  {
  }

  lemma OneMore(h: int, a: int)
    ensures (h + 1) * a == h * a + a
  {
  }

  /** What the halvings take off is bounded by their number. */
  lemma {:induction false} HalvedOffBounded(r: Run, weights: seq<int>, i: nat, t: nat)
    requires IsRun(r, weights) && PositiveWeights(weights) && i < |weights| && t <= |r.picks|
    ensures -(Halvings(t) * Sum(weights)) <= HalvedOff(r, weights, i, t)
            <= Halvings(t) * ((|weights| - 1) * Sum(weights))
  {
    if t == 0 {
    } else {
      var h, total, top := Halvings(t - 1), Sum(weights), (|weights| - 1) * Sum(weights);
      HalvedOffBounded(r, weights, i, t - 1);
      HalvingsNext(t);
      OneMore(h, total);
      OneMore(h, top);
      SettledBounded(r, weights, t - 1, i);
      HalvedLess(r.settled[t - 1][i]);
      assert IsCall(r, weights, t - 1);
    }
  }

  lemma SettledBounded(r: Run, weights: seq<int>, k: nat, i: nat)
    requires IsRun(r, weights) && PositiveWeights(weights) && k < |r.picks| && i < |weights|
    ensures |r.settled[k]| == |weights| && -Sum(weights) < r.settled[k][i] <= (|weights| - 1) * Sum(weights)
    ensures 0 <= (|weights| - 1) * Sum(weights) && Sum(weights) > 0
  {
    RunBounded(r, weights, k);
    assert IsCall(r, weights, k);
    StepBounded(r.current[k], weights, r.picks[k], r.settled[k]);
    BoundedAbove(r.settled[k], weights, i);
    TotalAtLeastCount(weights, |weights|);
    CountTimesTotal(|weights|, Sum(weights));
  }

  /** Over runs of any length no backend's picks stray from its share by more than one per halving
      and one more above it, or that many per other backend below it. */
  lemma FairShareAlways(r: Run, weights: seq<int>, t: nat, i: nat)
    requires IsRun(r, weights) && PositiveWeights(weights) && i < |weights| && t <= |r.picks|
    ensures var total, top, h := Sum(weights), (|weights| - 1) * Sum(weights), Halvings(t);
            && total * Count(r.picks, i, t) < t * weights[i] + (h + 1) * total
            && total * Count(r.picks, i, t) >= t * weights[i] - (h + 1) * top
  {
    CurrentIsDebt(r, weights, t, i);
    HalvedOffBounded(r, weights, i, t);
    RunBounded(r, weights, t);
    BoundedAbove(r.current[t], weights, i);
    OneMore(Halvings(t), Sum(weights));
    OneMore(Halvings(t), (|weights| - 1) * Sum(weights));
  }

  /** Over runs of any length, halvings included: the sum stays within the number of backends, and
      every current weight, before a call, raised in the middle of one and settled after it, lies
      above minus the total and at most at count times total. */
  lemma NeverOverflows(r: Run, weights: seq<int>, k: nat, i: nat)
    requires IsRun(r, weights) && PositiveWeights(weights) && i < |weights| && k < |r.picks|
    ensures |r.current[k]| == |r.settled[k]| == |weights|
    ensures var total, top := Sum(weights), (|weights| - 1) * Sum(weights);
            && -|weights| < Sum(r.current[k]) < |weights|
            && -total < r.current[k][i] <= top
            && -total < r.current[k][i] + weights[i] <= top + total
            && -total < r.settled[k][i] <= top
  {
    RunBounded(r, weights, k);
    BoundedAbove(r.current[k], weights, i);
    assert IsCall(r, weights, k);
    StepBounded(r.current[k], weights, r.picks[k], r.settled[k]);
    BoundedAbove(r.settled[k], weights, i);
    SumAtLeastTo(weights, 0, i, |weights|);
  }

  lemma CountTimesTotal(n: int, total: int)
    requires n >= 1 && total >= 0
    ensures n * total == (n - 1) * total + total && (n - 1) * total >= 0
  {
  }

  /** So 32-bit arithmetic is exact as soon as count times total fits. */
  lemma FitsInt32(r: Run, weights: seq<int>, k: nat, i: nat)
    requires IsRun(r, weights) && PositiveWeights(weights) && i < |weights| && k < |r.picks|
    requires |weights| * Sum(weights) < 0x8000_0000
    ensures |r.current[k]| == |r.settled[k]| == |weights|
    ensures -0x8000_0000 <= r.current[k][i] < 0x8000_0000
    ensures -0x8000_0000 <= r.current[k][i] + weights[i] < 0x8000_0000
    ensures -0x8000_0000 <= r.settled[k][i] < 0x8000_0000
  {
    NeverOverflows(r, weights, k, i);
    TotalAtLeastCount(weights, |weights|);
    CountTimesTotal(|weights|, Sum(weights));
  }
}
