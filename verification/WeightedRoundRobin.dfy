/** The weighted round-robin balancer as the program keeps it: a map from identifier to a weight and
    a running current weight, updated by every call. The calls may name any list of backends, also
    unknown or repeated ones; on a list of distinct known backends a call is one smooth step. */
module WeightedRoundRobin {
  import opened Collections
  import opened SmoothWeights

  datatype Backend = Backend(id: string, weight: int)
  datatype Weighted = Weighted(backend: Backend, weight: int, current: int)

  type Registry = map<string, Weighted>

  // ---------- one call on a value ----------

  /** Known backends keep their weight and have their reference refreshed; unknown ones start at 0. */
  function Register(m: Registry, list: seq<Backend>): (r: Registry)
    ensures forall i :: 0 <= i < |list| ==> list[i].id in r
    ensures forall id :: id in m ==> id in r
    decreases |list|
  {
    if list == [] then m
    else
      var r := Register(m, list[..|list| - 1]);
      var b := list[|list| - 1];
      if b.id in r then r[b.id := r[b.id].(backend := b)] else r[b.id := Weighted(b, b.weight, 0)]
  }

  function WeightsIn(m: Registry, list: seq<Backend>): seq<int>
    requires forall i :: 0 <= i < |list| ==> list[i].id in m
  {
    seq(|list|, i requires 0 <= i < |list| => m[list[i].id].weight)
  }

  function CurrentsIn(m: Registry, list: seq<Backend>): seq<int>
    requires forall i :: 0 <= i < |list| ==> list[i].id in m
  {
    seq(|list|, i requires 0 <= i < |list| => m[list[i].id].current)
  }

  /** The raising loop over the first `n` backends: the registry it leaves and the best so far. */
  function Raise(m: Registry, list: seq<Backend>, n: nat): (r: (Registry, string))
    requires n <= |list| && forall i :: 0 <= i < |list| ==> list[i].id in m
    ensures r.0.Keys == m.Keys && (n > 0 ==> r.1 in r.0)
  {
    if n == 0 then (m, "")
    else
      var (before, best) := Raise(m, list, n - 1);
      var id := list[n - 1].id;
      var after := before[id := before[id].(current := before[id].current + before[id].weight)];
      if n == 1 || after[id].current > after[best].current then (after, id) else (after, best)
  }

  function HalveAll(m: Registry, list: seq<Backend>, n: nat): (r: Registry)
    requires n <= |list| && forall i :: 0 <= i < |list| ==> list[i].id in m
    ensures r.Keys == m.Keys
  {
    if n == 0 then m
    else
      var before := HalveAll(m, list, n - 1);
      var id := list[n - 1].id;
      before[id := before[id].(current := Half(before[id].current))]
  }

  function TakeOff(m: Registry, id: string, total: int): Registry
    requires id in m
  {
    m[id := m[id].(current := m[id].current - total)]
  }

  function Call(m: Registry, calls: nat, list: seq<Backend>): (Registry, nat, Option<Backend>) {
    if list == [] then (m, calls, None)
    else
      var known := Register(m, list);
      var (raised, best) := Raise(known, list, |list|);
      var after := TakeOff(raised, best, Sum(WeightsIn(known, list)));
      var picked := Some(after[best].backend);
      if calls + 1 >= NORMALIZE_EVERY then (HalveAll(after, list, |list|), 0, picked)
      else (after, calls + 1, picked)
  }

  // ---------- the program ----------

  class Balancer {
    var backends: Registry
    var callCount: nat

    constructor ()
      ensures backends == map[] && callCount == 0
    {
      backends, callCount := map[], 0;
    }

    method Next(list: seq<Backend>) returns (picked: Option<Backend>)
      modifies this
      ensures (backends, callCount, picked) == Call(old(backends), old(callCount), list)
    {
      if |list| == 0 {
        return None;
      }
      var totalWeight := RegisterAll(list);
      var best := RaiseAll(list);
      backends := backends[best := backends[best].(current := backends[best].current - totalWeight)];
      picked := Some(backends[best].backend);
      callCount := callCount + 1;
      if callCount >= NORMALIZE_EVERY {
        Normalize(list);
        callCount := 0;
      }
    }

    /** Raises every listed current weight and remembers the highest. */
    method RaiseAll(list: seq<Backend>) returns (best: string)
      requires AllKnown(backends, list)
      modifies this`backends
      ensures (backends, best) == Raise(old(backends), list, |list|)
    {
      best := "";
      for i := 0 to |list|
        invariant (backends, best) == Raise(old(backends), list, i)
      {
        var id := list[i].id;
        backends := backends[id := backends[id].(current := backends[id].current + backends[id].weight)];
        if i == 0 || backends[id].current > backends[best].current {
          best := id;
        }
      }
    }

    method Normalize(list: seq<Backend>)
      requires AllKnown(backends, list)
      modifies this`backends
      ensures backends == HalveAll(old(backends), list, |list|)
    {
      for i := 0 to |list|
        invariant backends == HalveAll(old(backends), list, i)
      {
        var id := list[i].id;
        backends := backends[id := backends[id].(current := Half(backends[id].current))];
      }
    }

    method RegisterAll(list: seq<Backend>) returns (totalWeight: int)
      modifies this`backends
      ensures backends == Register(old(backends), list)
      ensures totalWeight == Sum(WeightsIn(backends, list))
    {
      totalWeight := 0;
      for i := 0 to |list|
        invariant backends == Register(old(backends), list[..i])
        invariant totalWeight == Sum(WeightsIn(backends, list[..i]))
      {
        var b := list[i];
        assert list[..i + 1] == list[..i] + [b];
        RegisterNext(old(backends), list[..i], b);
        if b.id in backends {
          backends := backends[b.id := backends[b.id].(backend := b)];
        } else {
          backends := backends[b.id := Weighted(b, b.weight, 0)];
        }
        totalWeight := totalWeight + backends[b.id].weight;
      }
      assert list[..|list|] == list;
    }

    method Reset()
      modifies this`backends
      ensures backends.Keys == old(backends).Keys
      ensures forall id :: id in backends ==> backends[id] == old(backends)[id].(current := 0)
    {
      var todo := backends.Keys;
      while todo != {}
        invariant todo <= backends.Keys == old(backends).Keys
        invariant forall id :: id in backends ==>
                    backends[id] == if id in todo then old(backends)[id] else old(backends)[id].(current := 0)
        decreases todo
      {
        var id :| id in todo;
        backends := backends[id := backends[id].(current := 0)];
        todo := todo - {id};
      }
    }
  }

  /** Registering one more backend adds its weight to the total and leaves the others' alone. */
  lemma RegisterNext(m: Registry, done: seq<Backend>, b: Backend)
    ensures var before, after := Register(m, done), Register(m, done + [b]);
            && after == (if b.id in before then before[b.id := before[b.id].(backend := b)]
                         else before[b.id := Weighted(b, b.weight, 0)])
            && Sum(WeightsIn(after, done + [b])) == Sum(WeightsIn(before, done)) + after[b.id].weight
  {
    var before, after := Register(m, done), Register(m, done + [b]);
    assert (done + [b])[..|done|] == done;
    assert WeightsIn(after, done + [b]) == WeightsIn(before, done) + [after[b.id].weight];
    SumAppend(WeightsIn(before, done), after[b.id].weight);
  }

  // ---------- a call on distinct backends is a smooth step ----------

  ghost predicate DistinctIds(list: seq<Backend>) {
    forall i, j :: 0 <= i < j < |list| ==> list[i].id != list[j].id
  }

  ghost predicate AllKnown(m: Registry, list: seq<Backend>) {
    forall i :: 0 <= i < |list| ==> list[i].id in m
  }

  /** Two registries agree on everything but current weights and references. */
  ghost predicate SameWeights(m: Registry, r: Registry) {
    m.Keys == r.Keys && forall id :: id in m ==> m[id].weight == r[id].weight
  }

  lemma {:induction false} RegisterKnown(m: Registry, list: seq<Backend>)
    requires AllKnown(m, list)
    ensures SameWeights(m, Register(m, list))
    ensures forall id :: id in m ==> Register(m, list)[id].current == m[id].current
    ensures DistinctIds(list) ==> forall i :: 0 <= i < |list| ==> Register(m, list)[list[i].id].backend == list[i]
    decreases |list|
  {
    if list == [] {
    } else {
      RegisterKnown(m, list[..|list| - 1]);
    }
  }

  /** Raising the first `n` backends gives those their new currents and leaves the rest. */
  lemma {:induction false} RaiseValues(m: Registry, list: seq<Backend>, n: nat)
    requires AllKnown(m, list) && DistinctIds(list) && n <= |list|
    ensures var r := Raise(m, list, n).0;
            && SameWeights(m, r)
            && (forall id :: id in m ==> r[id].backend == m[id].backend)
            && (forall i :: 0 <= i < |list| ==>
                  r[list[i].id].current == m[list[i].id].current + (if i < n then m[list[i].id].weight else 0))
  {
    if n == 0 {
    } else {
      RaiseValues(m, list, n - 1);
    }
  }

  /** The sum that decides: a backend's current weight once raised. */
  function Raised(m: Registry, list: seq<Backend>, i: nat): int
    requires AllKnown(m, list) && i < |list|
  {
    m[list[i].id].current + m[list[i].id].weight
  }

  lemma RaisedValue(m: Registry, list: seq<Backend>, n: nat, i: nat)
    requires AllKnown(m, list) && DistinctIds(list) && i < n <= |list|
    ensures AllKnown(Raise(m, list, n).0, list) && Raise(m, list, n).0[list[i].id].current == Raised(m, list, i)
  {
    RaiseValues(m, list, n);
  }

  /** The best so far is the first maximum of the currents raised so far. */
  lemma {:induction false} RaiseBest(m: Registry, list: seq<Backend>, n: nat) returns (b: nat)
    requires AllKnown(m, list) && DistinctIds(list) && 0 < n <= |list|
    ensures b < n && Raise(m, list, n).1 == list[b].id
    ensures forall i :: 0 <= i < n ==>
              Raised(m, list, i) <= Raised(m, list, b) && (i < b ==> Raised(m, list, i) < Raised(m, list, b))
  {
    if n == 1 {
      b := 0;
    } else {
      b := RaiseBest(m, list, n - 1);
      RaisedValue(m, list, n - 1, b);
      RaisedValue(m, list, n, n - 1);
      RaisedValue(m, list, n, b);
      b := if Raised(m, list, n - 1) > Raised(m, list, b) then n - 1 else b;
    }
  }

  lemma {:induction false} HalveValues(m: Registry, list: seq<Backend>, n: nat)
    requires AllKnown(m, list) && DistinctIds(list) && n <= |list|
    ensures SameWeights(m, HalveAll(m, list, n))
    ensures forall i :: 0 <= i < |list| ==>
              HalveAll(m, list, n)[list[i].id].current ==
              if i < n then Half(m[list[i].id].current) else m[list[i].id].current
  {
    if n == 0 {
    } else {
      HalveValues(m, list, n - 1);
    }
  }

  /** The registry a call leaves before any normalization. */
  function Settled(m: Registry, list: seq<Backend>): Registry
    requires list != []
  {
    var known := Register(m, list);
    var (raised, best) := Raise(known, list, |list|);
    TakeOff(raised, best, Sum(WeightsIn(known, list)))
  }

  /** On distinct known backends a call is one smooth step, and returns its pick. */
  lemma SettledIsStep(m: Registry, calls: nat, list: seq<Backend>) returns (b: nat)
    requires list != [] && AllKnown(m, list) && DistinctIds(list)
    ensures SameWeights(m, Settled(m, list)) && AllKnown(Settled(m, list), list)
    ensures IsStep(CurrentsIn(m, list), WeightsIn(m, list), b, CurrentsIn(Settled(m, list), list))
    ensures Call(m, calls, list).2 == Some(list[b])
  {
    var known := Register(m, list);
    RegisterKnown(m, list);
    assert WeightsIn(known, list) == WeightsIn(m, list);
    RaiseValues(known, list, |list|);
    b := RaiseBest(known, list, |list|);
    forall i | 0 <= i < |list|
      ensures Raised(known, list, i) == CurrentsIn(m, list)[i] + WeightsIn(m, list)[i]
      ensures CurrentsIn(Settled(m, list), list)[i]
              == Raised(known, list, i) - if i == b then Sum(WeightsIn(m, list)) else 0
    {
    }
  }

  /** After a call, normalized or not. */
  lemma CallIsStep(m: Registry, calls: nat, list: seq<Backend>) returns (b: nat)
    requires list != [] && AllKnown(m, list) && DistinctIds(list)
    ensures var (after, calls', picked) := Call(m, calls, list);
            && SameWeights(m, after) && AllKnown(after, list) && AllKnown(Settled(m, list), list)
            && b < |list| && picked == Some(list[b])
            && IsStep(CurrentsIn(m, list), WeightsIn(m, list), b, CurrentsIn(Settled(m, list), list))
            && (if calls + 1 >= NORMALIZE_EVERY
                then calls' == 0 && IsHalved(CurrentsIn(Settled(m, list), list), CurrentsIn(after, list))
                else calls' == calls + 1 && CurrentsIn(after, list) == CurrentsIn(Settled(m, list), list))
  {
    b := SettledIsStep(m, calls, list);
    HalveValues(Settled(m, list), list, |list|);
  }

  // ---------- whole runs of the balancer ----------

  datatype Moment = Moment(registry: Registry, calls: nat)

  /** Successive calls on the same list, from a call count of zero, and what they returned. */
  ghost predicate IsCallRun(at: seq<Moment>, returned: seq<Option<Backend>>, list: seq<Backend>) {
    && |at| == |returned| + 1 && at[0].calls == 0
    && forall k :: 0 <= k < |returned| ==> IsCallAt(at, returned, list, k)
  }

  ghost predicate IsCallAt(at: seq<Moment>, returned: seq<Option<Backend>>, list: seq<Backend>, k: nat)
    requires |at| == |returned| + 1 && k < |returned|
  {
    (at[k + 1].registry, at[k + 1].calls, returned[k]) == Call(at[k].registry, at[k].calls, list)
  }

  /** Distinct backends, each of them new or known with a current weight of zero. */
  ghost predicate Fresh(m: Registry, list: seq<Backend>) {
    DistinctIds(list) && forall i :: 0 <= i < |list| && list[i].id in m ==> m[list[i].id].current == 0
  }

  ghost predicate MirrorsAt(r: Run, at: seq<Moment>, list: seq<Backend>, k: nat)
    requires k < |r.current| == |at|
  {
    && AllKnown(at[k].registry, list) && SameWeights(at[0].registry, at[k].registry)
    && r.current[k] == CurrentsIn(at[k].registry, list)
    && at[k].calls == k % NORMALIZE_EVERY
  }

  /** `r` is the arithmetic run that the first calls of the balancer go through. */
  ghost predicate Mirrors(r: Run, at: seq<Moment>, returned: seq<Option<Backend>>, list: seq<Backend>) {
    && |r.picks| == |returned| && |at| == |returned| + 1 && AllKnown(at[0].registry, list)
    && IsRun(r, WeightsIn(at[0].registry, list))
    && (forall k :: 0 <= k < |at| ==> MirrorsAt(r, at, list, k))
    && (forall k :: 0 <= k < |returned| ==> r.picks[k] < |list| && returned[k] == Some(list[r.picks[k]]))
  }

  /** Call `k` as an arithmetic step, told without the registry's own operations. */
  ghost predicate StepsAt(at: seq<Moment>, returned: seq<Option<Backend>>, list: seq<Backend>, k: nat,
                          b: nat, settled: seq<int>)
    requires |at| == |returned| + 1 && k < |returned| && AllKnown(at[k].registry, list)
  {
    && b < |list| && returned[k] == Some(list[b]) && SameWeights(at[k].registry, at[k + 1].registry)
    && IsStep(CurrentsIn(at[k].registry, list), WeightsIn(at[k].registry, list), b, settled)
    && at[k + 1].calls == (if at[k].calls + 1 >= NORMALIZE_EVERY then 0 else at[k].calls + 1)
    && if at[k].calls + 1 >= NORMALIZE_EVERY then IsHalved(settled, CurrentsIn(at[k + 1].registry, list))
       else CurrentsIn(at[k + 1].registry, list) == settled
  }

  lemma CallSteps(at: seq<Moment>, returned: seq<Option<Backend>>, list: seq<Backend>, k: nat)
      returns (b: nat, settled: seq<int>)
    requires |at| == |returned| + 1 && k < |returned| && list != []
    requires AllKnown(at[k].registry, list) && DistinctIds(list) && IsCallAt(at, returned, list, k)
    ensures StepsAt(at, returned, list, k, b, settled)
  {
    b := CallIsStep(at[k].registry, at[k].calls, list);
    settled := CurrentsIn(Settled(at[k].registry, list), list);
  }

  lemma CallRunPrefix(at: seq<Moment>, returned: seq<Option<Backend>>, list: seq<Backend>)
    requires IsCallRun(at, returned, list) && returned != []
    ensures IsCallRun(at[..|returned|], returned[..|returned| - 1], list)
  {
    var before, earlier := at[..|returned|], returned[..|returned| - 1];
    forall k | 0 <= k < |earlier| ensures IsCallAt(before, earlier, list, k) {
      assert IsCallAt(at, returned, list, k);
    }
  }

  lemma {:induction false} CallRunMirrors(at: seq<Moment>, returned: seq<Option<Backend>>, list: seq<Backend>)
      returns (r: Run)
    requires list != [] && IsCallRun(at, returned, list)
    requires AllKnown(at[0].registry, list) && Fresh(at[0].registry, list)
    ensures Mirrors(r, at, returned, list)
    decreases |returned|
  {
    if returned == [] {
      r := Run([CurrentsIn(at[0].registry, list)], [], []);
      assert MirrorsAt(r, at, list, 0);
    } else {
      var n := |returned| - 1;
      CallRunPrefix(at, returned, list);
      var before := CallRunMirrors(at[..n + 1], returned[..n], list);
      assert MirrorsAt(before, at[..n + 1], list, n);
      assert IsCallAt(at, returned, list, n);
      var b, settled := CallSteps(at, returned, list, n);
      r := MirrorsExtend(before, at, returned, list, b, settled);
    }
  }

  lemma MirrorsExtend(r: Run, at: seq<Moment>, returned: seq<Option<Backend>>, list: seq<Backend>,
                      b: nat, settled: seq<int>)
      returns (longer: Run)
    requires b < |list| && returned != [] && |at| == |returned| + 1
    requires Mirrors(r, at[..|returned|], returned[..|returned| - 1], list)
    requires AllKnown(at[|returned| - 1].registry, list)
    requires StepsAt(at, returned, list, |returned| - 1, b, settled)
    ensures Mirrors(longer, at, returned, list)
  {
    var n := |returned| - 1;
    var short := at[..n + 1];
    assert MirrorsAt(r, short, list, n);
    assert WeightsIn(at[n].registry, list) == WeightsIn(at[0].registry, list);
    longer := ExtendRun(r, WeightsIn(at[0].registry, list), b, settled, CurrentsIn(at[n + 1].registry, list));
    forall k | 0 <= k < |at| ensures MirrorsAt(longer, at, list, k) {
      if k <= n {
        assert MirrorsAt(r, short, list, k);
      }
    }
  }

  lemma ExtendRun(r: Run, weights: seq<int>, b: nat, settled: seq<int>, current: seq<int>) returns (longer: Run)
    requires IsRun(r, weights) && IsStep(r.current[|r.picks|], weights, b, settled)
    requires if (|r.picks| + 1) % NORMALIZE_EVERY == 0 then IsHalved(settled, current) else current == settled
    ensures longer == Run(r.current + [current], r.settled + [settled], r.picks + [b])
    ensures IsRun(longer, weights)
  {
    longer := Run(r.current + [current], r.settled + [settled], r.picks + [b]);
    forall k | 0 <= k < |longer.picks| ensures IsCall(longer, weights, k) {
      if k < |r.picks| {
        assert IsCall(r, weights, k);
      }
    }
  }

  function TimesReturned(returned: seq<Option<Backend>>, b: Backend, t: nat): nat
    requires t <= |returned|
  {
    if t == 0 then 0 else TimesReturned(returned, b, t - 1) + (if returned[t - 1] == Some(b) then 1 else 0)
  }

  lemma {:induction false} TimesReturnedIsCount(
      returned: seq<Option<Backend>>, picks: seq<nat>, list: seq<Backend>, t: nat, i: nat)
    requires |returned| == |picks| && t <= |picks| && i < |list| && DistinctIds(list)
    requires forall k :: 0 <= k < |picks| ==> picks[k] < |list| && returned[k] == Some(list[picks[k]])
    ensures TimesReturned(returned, list[i], t) == Count(picks, i, t)
  {
    if t == 0 {
    } else {
      TimesReturnedIsCount(returned, picks, list, t - 1, i);
      assert returned[t - 1] == Some(list[picks[t - 1]]);
    }
  }

  // ---------- the first call registers ----------

  lemma {:induction false} RegisterOther(m: Registry, list: seq<Backend>, id: string)
    requires forall i :: 0 <= i < |list| ==> list[i].id != id
    ensures (id in Register(m, list) <==> id in m) && (id in m ==> Register(m, list)[id] == m[id])
    decreases |list|
  {
    if list == [] {
    } else {
      RegisterOther(m, Most(list), id);
    }
  }

  lemma {:induction false} RegisterAt(m: Registry, list: seq<Backend>, i: nat)
    requires DistinctIds(list) && i < |list|
    ensures var b := list[i];
            Register(m, list)[b.id] == if b.id in m then m[b.id].(backend := b) else Weighted(b, b.weight, 0)
    decreases |list|
  {
    if i == |list| - 1 {
      RegisterOther(m, Most(list), list[i].id);
    } else {
      RegisterAt(m, Most(list), i);
    }
  }

  /** Registering the same backends a second time changes nothing. */
  lemma RegisterTwice(m: Registry, list: seq<Backend>)
    requires DistinctIds(list)
    ensures Register(Register(m, list), list) == Register(m, list)
  {
    var once := Register(m, list);
    var twice := Register(once, list);
    forall id ensures (id in twice <==> id in once) && (id in once ==> twice[id] == once[id]) {
      if i :| 0 <= i < |list| && list[i].id == id {
        RegisterAt(m, list, i);
        RegisterAt(once, list, i);
      } else {
        RegisterOther(once, list, id);
      }
    }
    assert twice.Keys == once.Keys;
  }

  /** The run as it would be had the backends been registered before the first call. */
  ghost function Registered(at: seq<Moment>, list: seq<Backend>): seq<Moment>
    requires at != []
  {
    [Moment(Register(at[0].registry, list), at[0].calls)] + at[1..]
  }

  lemma RegisteredRun(at: seq<Moment>, returned: seq<Option<Backend>>, list: seq<Backend>)
    requires list != [] && IsCallRun(at, returned, list) && Fresh(at[0].registry, list)
    ensures var known := Registered(at, list);
            IsCallRun(known, returned, list) && AllKnown(known[0].registry, list) && Fresh(known[0].registry, list)
  {
    var known := Registered(at, list);
    RegisterTwice(at[0].registry, list);
    forall k | 0 <= k < |returned| ensures IsCallAt(known, returned, list, k) {
      assert IsCallAt(at, returned, list, k);
    }
    forall i | 0 <= i < |list| ensures known[0].registry[list[i].id].current == 0 {
      RegisterAt(at[0].registry, list, i);
    }
  }

  /** The weights the balancer works with: those it knows, or else the backends' own. */
  ghost function WeightsFrom(m: Registry, list: seq<Backend>): seq<int> {
    seq(|list|, i requires 0 <= i < |list| =>
      if list[i].id in m then m[list[i].id].weight else list[i].weight)
  }

  /** A registration records exactly those weights. */
  lemma RegisterWeights(m: Registry, list: seq<Backend>)
    requires DistinctIds(list)
    ensures WeightsIn(Register(m, list), list) == WeightsFrom(m, list)
  {
    forall i | 0 <= i < |list| ensures Register(m, list)[list[i].id].weight == WeightsFrom(m, list)[i] {
      RegisteredWeight(m, list, |list|, i);
      assert list[..|list|] == list;
    }
  }

  lemma {:induction false} RegisteredWeight(m: Registry, list: seq<Backend>, n: nat, i: nat)
    requires DistinctIds(list) && i < |list| && n <= |list|
    ensures var r := Register(m, list[..n]);
            if i < n then list[i].id in r && r[list[i].id].weight == WeightsFrom(m, list)[i]
            else list[i].id in r <==> list[i].id in m
    ensures list[i].id in m ==> Register(m, list[..n])[list[i].id].weight == m[list[i].id].weight
  {
    if n == 0 {
    } else {
      assert list[..n][..n - 1] == list[..n - 1];
      RegisteredWeight(m, list, n - 1, i);
    }
  }

  // ---------- what the balancer promises ----------

  /** The balancer hands out calls exactly in proportion, from its first call on: whenever all shares
      of `t` calls are whole, each backend was returned exactly its share, before the first
      normalization and, if all shares of a million calls are whole too, for ever. */
  lemma BalancerIsProportional(at: seq<Moment>, returned: seq<Option<Backend>>, list: seq<Backend>, t: nat, i: nat)
    requires IsCallRun(at, returned, list) && Fresh(at[0].registry, list) && i < |list| && t <= |returned|
    requires var w := WeightsFrom(at[0].registry, list);
             && Weights(w) && SharesWhole(w, t) && (t < NORMALIZE_EVERY || SharesWhole(w, NORMALIZE_EVERY))
    ensures var w := WeightsFrom(at[0].registry, list);
            Sum(w) * TimesReturned(returned, list[i], t) == t * w[i]
  {
    RegisteredRun(at, returned, list);
    RegisterWeights(at[0].registry, list);
    var w := WeightsFrom(at[0].registry, list);
    var r := CallRunMirrors(Registered(at, list), returned, list);
    ExactlyProportional(r, w, t, i);
    TimesReturnedIsCount(returned, r.picks, list, t, i);
  }

  /** Over any number of calls, normalizations included, each backend is returned its share up to one
      call per normalization and one more, or that many per other backend. */
  lemma BalancerIsFair(at: seq<Moment>, returned: seq<Option<Backend>>, list: seq<Backend>, t: nat, i: nat)
    requires IsCallRun(at, returned, list) && Fresh(at[0].registry, list) && i < |list| && t <= |returned|
    requires PositiveWeights(WeightsFrom(at[0].registry, list))
    ensures var w, h := WeightsFrom(at[0].registry, list), Halvings(t);
            && Sum(w) * TimesReturned(returned, list[i], t) < t * w[i] + (h + 1) * Sum(w)
            && Sum(w) * TimesReturned(returned, list[i], t) >= t * w[i] - (h + 1) * ((|w| - 1) * Sum(w))
  {
    RegisteredRun(at, returned, list);
    RegisterWeights(at[0].registry, list);
    var r := CallRunMirrors(Registered(at, list), returned, list);
    FairShareAlways(r, WeightsFrom(at[0].registry, list), t, i);
    TimesReturnedIsCount(returned, r.picks, list, t, i);
  }

  /** Over any number of calls, normalizations included, the 32-bit fields of the program do not
      overflow, before or in the middle of a call, when the number of backends times their total
      weight fits. */
  lemma BalancerFitsInt32(at: seq<Moment>, returned: seq<Option<Backend>>, list: seq<Backend>, k: nat, i: nat)
    requires IsCallRun(at, returned, list) && Fresh(at[0].registry, list) && i < |list| && k < |returned|
    requires var w := WeightsFrom(at[0].registry, list);
             PositiveWeights(w) && |w| * Sum(w) < 0x8000_0000
    ensures FitsFields(Register(at[k].registry, list)[list[i].id])
  {
    RegisteredRun(at, returned, list);
    RegisterWeights(at[0].registry, list);
    RegisterTwice(at[0].registry, list);
    KnownFitsInt32(Registered(at, list), returned, list, k, i);
  }

  lemma KnownFitsInt32(at: seq<Moment>, returned: seq<Option<Backend>>, list: seq<Backend>, k: nat, i: nat)
    requires IsCallRun(at, returned, list) && i < |list| && k < |returned|
    requires AllKnown(at[0].registry, list) && Fresh(at[0].registry, list)
    requires var w := WeightsIn(at[0].registry, list);
             PositiveWeights(w) && |w| * Sum(w) < 0x8000_0000
    ensures FitsFields(Register(at[k].registry, list)[list[i].id])
  {
    var r := CallRunMirrors(at, returned, list);
    FitsInt32(r, WeightsIn(at[0].registry, list), k, i);
    DuringCall(r, at, returned, list, k, i);
  }

  /** The current weight fits 32 bits, and still does when raised. */
  predicate FitsFields(wb: Weighted) {
    -0x8000_0000 <= wb.current < 0x8000_0000 && -0x8000_0000 <= wb.current + wb.weight < 0x8000_0000
  }

  /** During a call the registry shows the numbers of the arithmetic run. */
  lemma DuringCall(r: Run, at: seq<Moment>, returned: seq<Option<Backend>>, list: seq<Backend>, k: nat, i: nat)
    requires Mirrors(r, at, returned, list) && k < |at| && i < |list|
    ensures |r.current[k]| == |list|
    ensures var wb := Register(at[k].registry, list)[list[i].id];
            wb.current == r.current[k][i] && wb.weight == WeightsIn(at[0].registry, list)[i]
  {
    assert MirrorsAt(r, at, list, k);
    RegisterKnown(at[k].registry, list);
    assert list[i].id in at[k].registry;
  }
}
