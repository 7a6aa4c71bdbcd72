/** The broadcast queue: every queued message may be handed out a limited number of times, newest
    first, as many per call as fit a size limit. */
module GossipBroadcast {
  import opened GossipCodec

  /** `ticket` tells queued broadcasts apart; `retransmit` is how often it may still go out. */
  datatype Broadcast = Broadcast(ticket: nat, msg: Bytes, retransmit: int, created: int)

  type Queue = seq<Broadcast>

  ghost predicate NewestFirst(q: Queue) {
    forall i, j :: 0 <= i < j < |q| ==> q[i].created >= q[j].created
  }

  // ---------- one sweep over the sorted queue ----------

  datatype Swept = Swept(sent: Queue, kept: Queue)

  function Sweep(q: Queue, limit: int, used: nat): Swept
    decreases |q|
  {
    if q == [] then Swept([], [])
    else
      var b := q[0];
      if used + |b.msg| <= limit then
        var rest := Sweep(q[1..], limit, used + |b.msg|);
        Swept([b] + rest.sent, (if b.retransmit - 1 > 0 then [b.(retransmit := b.retransmit - 1)] else []) + rest.kept)
      else
        var rest := Sweep(q[1..], limit, used);
        Swept(rest.sent, [b] + rest.kept)
  }

  function TotalSize(q: Queue): nat {
    if q == [] then 0 else |q[0].msg| + TotalSize(q[1..])
  }

  /** What is handed out fits the limit. */
  lemma {:induction false} SentFits(q: Queue, limit: int, used: nat)
    ensures var sent := Sweep(q, limit, used).sent;
            sent != [] ==> used + TotalSize(sent) <= limit
    decreases |q|
  {
    if q == [] {
    } else {
      SentFits(q[1..], limit, used + |q[0].msg|);
      SentFits(q[1..], limit, used);
      var rest := Sweep(q[1..], limit, used + |q[0].msg|).sent;
      assert ([q[0]] + rest)[1..] == rest;
      assert TotalSize([]) == 0;
    }
  }

  lemma TotalSizeConcat(a: Queue, b: Broadcast)
    ensures TotalSize(a + [b]) == TotalSize(a) + |b.msg|
  {
    if a == [] {
      assert a + [b] == [b] && [b][1..] == [];
    } else {
      assert (a + [b])[1..] == a[1..] + [b];
      TotalSizeConcat(a[1..], b);
    }
  }

  /** The sweep is greedy: one more broadcast at the end is handed out exactly when it fits beside all
      those handed out before it, and is otherwise kept as it is. */
  lemma {:induction false} SweepGreedy(q: Queue, b: Broadcast, limit: int, used: nat)
    ensures var s, t := Sweep(q, limit, used), Sweep(q + [b], limit, used);
            if used + TotalSize(s.sent) + |b.msg| <= limit
            then t.sent == s.sent + [b]
                 && t.kept == s.kept + if b.retransmit > 1 then [b.(retransmit := b.retransmit - 1)] else []
            else t == Swept(s.sent, s.kept + [b])
    decreases |q|
  {
    if q == [] {
      assert q + [b] == [b] && [b][1..] == [];
    } else {
      assert (q + [b])[1..] == q[1..] + [b];
      if used + |q[0].msg| <= limit {
        SweepGreedy(q[1..], b, limit, used + |q[0].msg|);
        var rest := Sweep(q[1..], limit, used + |q[0].msg|).sent;
        assert ([q[0]] + rest)[1..] == rest;
      } else {
        SweepGreedy(q[1..], b, limit, used);
      }
    }
  }

  /** So a queue that fits goes out whole, in order. */
  lemma {:induction false} AllGoOut(q: Queue, limit: int)
    requires TotalSize(q) <= limit
    ensures Sweep(q, limit, 0).sent == q
    decreases |q|
  {
    if q == [] {
    } else {
      var k := |q| - 1;
      assert q == q[..k] + [q[k]];
      TotalSizeConcat(q[..k], q[k]);
      AllGoOut(q[..k], limit);
      SweepGreedy(q[..k], q[k], limit, 0);
    }
  }

  // ---------- budgets ----------

  /** How often a queued broadcast will still go out: one queued with no budget goes out once. */
  function Owed(b: Broadcast): nat {
    if b.retransmit > 1 then b.retransmit else 1
  }

  /** What is still owed for one ticket. */
  function OwedFor(q: Queue, ticket: nat): nat {
    if q == [] then 0 else (if q[0].ticket == ticket then Owed(q[0]) else 0) + OwedFor(q[1..], ticket)
  }

  function TotalOwed(q: Queue): nat {
    if q == [] then 0 else Owed(q[0]) + TotalOwed(q[1..])
  }

  function Sendings(sent: Queue, ticket: nat): nat {
    if sent == [] then 0 else (if sent[0].ticket == ticket then 1 else 0) + Sendings(sent[1..], ticket)
  }

  lemma {:induction false} OwedConcat(a: Queue, b: Queue, ticket: nat)
    ensures OwedFor(a + b, ticket) == OwedFor(a, ticket) + OwedFor(b, ticket)
    ensures TotalOwed(a + b) == TotalOwed(a) + TotalOwed(b)
    decreases |a|
  {
    if a == [] {
      assert a + b == b;
    } else {
      assert (a + b)[1..] == a[1..] + b;
      OwedConcat(a[1..], b, ticket);
    }
  }

  lemma OwedOne(b: Broadcast, ticket: nat)
    ensures OwedFor([b], ticket) == if b.ticket == ticket then Owed(b) else 0
    ensures TotalOwed([b]) == Owed(b)
    ensures Sendings([b], ticket) == if b.ticket == ticket then 1 else 0
  {
    assert [b][1..] == [];
  }

  lemma {:induction false} SendingsConcat(a: Queue, b: Queue, ticket: nat)
    ensures Sendings(a + b, ticket) == Sendings(a, ticket) + Sendings(b, ticket)
    decreases |a|
  {
    if a == [] {
      assert a + b == b;
    } else {
      assert (a + b)[1..] == a[1..] + b;
      SendingsConcat(a[1..], b, ticket);
    }
  }

  /** The entry a handed-out broadcast leaves behind owes one less than before. */
  lemma LeftBehind(b: Broadcast, ticket: nat)
    ensures var left := if b.retransmit - 1 > 0 then [b.(retransmit := b.retransmit - 1)] else [];
            && OwedFor(left, ticket) + Sendings([b], ticket) == OwedFor([b], ticket)
            && TotalOwed(left) + 1 == TotalOwed([b])
  {
    OwedOne(b, ticket);
    OwedOne(b.(retransmit := b.retransmit - 1), ticket);
  }

  /** A sweep conserves the budget: what a ticket is owed falls by exactly how often it was handed
      out, and what the whole queue owes by exactly the number of messages handed out. */
  lemma {:induction false} SweepConserves(q: Queue, limit: int, used: nat, ticket: nat)
    ensures var s := Sweep(q, limit, used);
            && OwedFor(s.kept, ticket) + Sendings(s.sent, ticket) == OwedFor(q, ticket)
            && TotalOwed(s.kept) + |s.sent| == TotalOwed(q)
    decreases |q|
  {
    if q == [] {
    } else {
      var b := q[0];
      assert q == [b] + q[1..];
      OwedConcat([b], q[1..], ticket);
      if used + |b.msg| <= limit {
        var rest := Sweep(q[1..], limit, used + |b.msg|);
        SweepConserves(q[1..], limit, used + |b.msg|, ticket);
        LeftBehind(b, ticket);
        OwedConcat(if b.retransmit - 1 > 0 then [b.(retransmit := b.retransmit - 1)] else [], rest.kept, ticket);
        SendingsConcat([b], rest.sent, ticket);
      } else {
        SweepConserves(q[1..], limit, used, ticket);
        OwedConcat([b], Sweep(q[1..], limit, used).kept, ticket);
      }
    }
  }

  function Dropped(q: Queue, i: nat): Queue
    requires i < |q|
  {
    q[..i] + q[i + 1..]
  }

  lemma DroppedMultiset(q: Queue, i: nat)
    requires i < |q|
    ensures multiset(Dropped(q, i)) == multiset(q) - multiset{q[i]}
  {
    assert q == q[..i] + [q[i]] + q[i + 1..];
  }

  lemma DroppedOwed(q: Queue, i: nat, ticket: nat)
    requires i < |q|
    ensures OwedFor(q, ticket) == OwedFor(Dropped(q, i), ticket) + OwedFor([q[i]], ticket)
    ensures TotalOwed(q) == TotalOwed(Dropped(q, i)) + TotalOwed([q[i]])
  {
    assert q == q[..i] + ([q[i]] + q[i + 1..]);
    OwedConcat(q[..i], [q[i]] + q[i + 1..], ticket);
    OwedConcat([q[i]], q[i + 1..], ticket);
    OwedConcat(q[..i], q[i + 1..], ticket);
  }

  /** Sorting does not change what is owed. */
  lemma {:induction false} OwedPermuted(a: Queue, b: Queue, ticket: nat)
    requires multiset(a) == multiset(b)
    ensures OwedFor(a, ticket) == OwedFor(b, ticket) && TotalOwed(a) == TotalOwed(b)
    decreases |a|
  {
    if a == [] {
      assert |multiset(b)| == |b| == 0;
    } else {
      assert a[0] in multiset(b);
      var i :| 0 <= i < |b| && b[i] == a[0];
      DroppedMultiset(a, 0);
      DroppedMultiset(b, i);
      OwedPermuted(Dropped(a, 0), Dropped(b, i), ticket);
      DroppedOwed(a, 0, ticket);
      DroppedOwed(b, i, ticket);
    }
  }

  // ---------- whole runs ----------

  /** `granted` is the budget each ticket was queued with, `sendings` how often it has gone out. */
  datatype History = History(queue: Queue, granted: seq<nat>, sendings: seq<nat>)

  datatype Event =
    | Enqueue(msg: Bytes, budget: int, created: int)
    | Collect(limit: int, sorted: Queue)

  /** One call. The library sort may order equally old broadcasts either way. */
  ghost predicate Step(h: History, e: Event, after: History) {
    match e
    case Enqueue(msg, budget, created) =>
      var b := Broadcast(|h.granted|, msg, budget, created);
      after == History(h.queue + [b], h.granted + [Owed(b)], h.sendings + [0])
    case Collect(limit, sorted) =>
      && multiset(sorted) == multiset(h.queue) && NewestFirst(sorted)
      && var s := Sweep(sorted, limit, 0);
         && after.queue == s.kept && after.granted == h.granted && |after.sendings| == |h.sendings|
         && forall t :: 0 <= t < |h.sendings| ==> after.sendings[t] == h.sendings[t] + Sendings(s.sent, t)
  }

  /** Every ticket's budget is split between what has gone out and what is still owed. */
  ghost predicate Balanced(h: History) {
    && |h.sendings| == |h.granted|
    && (forall t: nat :: t < |h.granted| ==> h.sendings[t] + OwedFor(h.queue, t) == h.granted[t])
    && (forall t: nat :: t >= |h.granted| ==> OwedFor(h.queue, t) == 0)
  }

  lemma StepBalanced(h: History, e: Event, after: History)
    requires Balanced(h) && Step(h, e, after)
    ensures Balanced(after)
  {
    match e
    case Enqueue(msg, budget, created) =>
      var b := Broadcast(|h.granted|, msg, budget, created);
      forall t: nat
        ensures OwedFor(after.queue, t) == OwedFor(h.queue, t) + if t == |h.granted| then Owed(b) else 0
      {
        OwedConcat(h.queue, [b], t);
        OwedOne(b, t);
      }
    case Collect(limit, sorted) =>
      forall t: nat
        ensures OwedFor(after.queue, t) + Sendings(Sweep(sorted, limit, 0).sent, t) == OwedFor(h.queue, t)
      {
        SweepConserves(sorted, limit, 0, t);
        OwedPermuted(sorted, h.queue, t);
      }
  }

  ghost predicate IsRun(histories: seq<History>, events: seq<Event>) {
    && |histories| == |events| + 1 && histories[0] == History([], [], [])
    && forall i :: 0 <= i < |events| ==> Step(histories[i], events[i], histories[i + 1])
  }

  lemma {:induction false} RunBalanced(histories: seq<History>, events: seq<Event>, i: nat)
    requires IsRun(histories, events) && i < |histories|
    ensures Balanced(histories[i])
    decreases i
  {
    if i == 0 {
    } else {
      RunBalanced(histories, events, i - 1);
      StepBalanced(histories[i - 1], events[i - 1], histories[i]);
    }
  }

  lemma {:induction false} OwedIfQueued(q: Queue, ticket: nat)
    ensures OwedFor(q, ticket) == 0 <==> forall i :: 0 <= i < |q| ==> q[i].ticket != ticket
  {
    if q == [] {
    } else {
      OwedIfQueued(q[1..], ticket);
      assert forall i :: 0 < i < |q| ==> q[i] == q[1..][i - 1];
    }
  }

  /** Over every run a broadcast goes out at most as often as it was granted, and leaves the queue
      exactly when it has gone out that often. */
  lemma BudgetConservation(histories: seq<History>, events: seq<Event>, i: nat, ticket: nat)
    requires IsRun(histories, events) && i < |histories| && ticket < |histories[i].granted|
    ensures |histories[i].sendings| == |histories[i].granted|
    ensures histories[i].sendings[ticket] <= histories[i].granted[ticket]
    ensures (forall k :: 0 <= k < |histories[i].queue| ==> histories[i].queue[k].ticket != ticket)
            <==> histories[i].sendings[ticket] == histories[i].granted[ticket]
  {
    RunBalanced(histories, events, i);
    OwedIfQueued(histories[i].queue, ticket);
  }

  // ---------- the program ----------

  method InsertByAge(q: Queue, b: Broadcast) returns (r: Queue)
    requires NewestFirst(q)
    ensures NewestFirst(r) && multiset(r) == multiset(q) + multiset{b}
  {
    var i := |q|;
    while i > 0 && q[i - 1].created < b.created
      invariant 0 <= i <= |q|
      invariant forall k :: i <= k < |q| ==> q[k].created <= b.created
    {
      i := i - 1;
    }
    assert forall k :: 0 <= k < i ==> q[k].created >= b.created;
    InsertedByAge(q, b, i, q[..i] + [b] + q[i..]);
    InsertedMultiset(q, b, i);
    r := q[..i] + [b] + q[i..];
  }

  lemma InsertedByAge(q: Queue, b: Broadcast, i: nat, r: Queue)
    requires NewestFirst(q) && i <= |q| && r == q[..i] + [b] + q[i..]
    requires forall k :: 0 <= k < i ==> q[k].created >= b.created
    requires forall k :: i <= k < |q| ==> q[k].created <= b.created
    ensures NewestFirst(r)
  {
    assert r[i] == b;
    assert forall k :: 0 <= k < i ==> r[k] == q[k];
    assert forall k :: i < k < |r| ==> r[k] == q[k - 1];
  }

  lemma InsertedMultiset(q: Queue, b: Broadcast, i: nat)
    requires i <= |q|
    ensures multiset(q[..i] + [b] + q[i..]) == multiset(q) + multiset{b}
  {
    assert q == q[..i] + q[i..];
  }

  method SortByAge(q: Queue) returns (r: Queue)
    ensures NewestFirst(r) && multiset(r) == multiset(q)
  {
    r := [];
    for i := 0 to |q|
      invariant NewestFirst(r) && multiset(r) == multiset(q[..i])
    {
      r := InsertByAge(r, q[i]);
      assert q[..i + 1] == q[..i] + [q[i]];
    }
    assert q[..|q|] == q;
  }

  function Charged(sendings: seq<nat>, sent: Queue): seq<nat> {
    seq(|sendings|, t requires 0 <= t < |sendings| => sendings[t] + Sendings(sent, t))
  }

  function Texts(q: Queue): seq<Bytes> {
    seq(|q|, i requires 0 <= i < |q| => q[i].msg)
  }

  class Broadcasts {
    var queue: Queue
    var tickets: nat
    /** What each broadcast was granted, and how often it has gone out. */
    ghost var granted: seq<nat>
    ghost var sendings: seq<nat>

    /** Every broadcast's budget is split between what has gone out and what is still owed. */
    ghost predicate Valid()
      reads this
    {
      tickets == |granted| && Balanced(History(queue, granted, sendings))
    }

    constructor ()
      ensures Valid() && queue == [] && tickets == 0
    {
      queue, tickets, granted, sendings := [], 0, [], [];
    }

    /** A broadcast has gone out at most as often as granted, and is gone exactly when it has. */
    lemma Conserved(ticket: nat)
      requires Valid() && ticket < tickets
      ensures |sendings| == |granted| == tickets && sendings[ticket] <= granted[ticket]
      ensures (forall k :: 0 <= k < |queue| ==> queue[k].ticket != ticket) <==> sendings[ticket] == granted[ticket]
    {
      OwedIfQueued(queue, ticket);
    }

    method QueueBroadcast(msg: Bytes, budget: int, now: int)
      requires Valid()
      modifies this
      ensures Valid() && queue == old(queue) + [Broadcast(old(tickets), msg, budget, now)]
      ensures granted == old(granted) + [if budget > 1 then budget else 1] && sendings == old(sendings) + [0]
    {
      ghost var h := History(queue, granted, sendings);
      var b := Broadcast(tickets, msg, budget, now);
      queue := queue + [b];
      tickets := tickets + 1;
      granted, sendings := granted + [Owed(b)], sendings + [0];
      StepBalanced(h, Enqueue(msg, budget, now), History(queue, granted, sendings));
    }

    /** What is returned is the newest-first sweep of the queue, fits the limit, and is charged to the
        budgets. */
    method GetBroadcasts(limit: int) returns (result: seq<Bytes>, ghost sorted: Queue)
      requires Valid()
      modifies this`queue, this`sendings
      ensures Valid() && multiset(sorted) == multiset(old(queue)) && NewestFirst(sorted)
      ensures var s := Sweep(sorted, limit, 0);
              && queue == s.kept && result == Texts(s.sent) && (s.sent != [] ==> TotalSize(s.sent) <= limit)
              && sendings == Charged(old(sendings), s.sent)
    {
      ghost var h := History(queue, granted, sendings);
      result, sorted := Collect(limit);
      SentFits(sorted, limit, 0);
      sendings := Charged(sendings, Sweep(sorted, limit, 0).sent);
      StepBalanced(h, Event.Collect(limit, sorted), History(queue, granted, sendings));
    }

    /** The sort and the loop. */
    method Collect(limit: int) returns (result: seq<Bytes>, ghost sorted: Queue)
      modifies this`queue
      ensures multiset(sorted) == multiset(old(queue)) && NewestFirst(sorted)
      ensures queue == Sweep(sorted, limit, 0).kept && result == Texts(Sweep(sorted, limit, 0).sent)
    {
      var all := SortByAge(queue);
      sorted := all;
      if |all| == 0 {
        queue := [];
        return [], sorted;
      }
      ghost var goal, sent := Sweep(all, limit, 0), [];
      var used: nat, remaining := 0, [];
      result := [];
      assert all[0..] == all;
      for i := 0 to |all|
        invariant result == Texts(sent)
        invariant var rest := Sweep(all[i..], limit, used);
                  goal == Swept(sent + rest.sent, remaining + rest.kept)
      {
        var b := all[i];
        SweepNext(all[i..], limit, used, sent, remaining);
        assert all[i..][1..] == all[i + 1..];
        if used + |b.msg| <= limit {
          result := result + [b.msg];
          sent := sent + [b];
          used := used + |b.msg|;
          if b.retransmit - 1 > 0 {
            remaining := remaining + [b.(retransmit := b.retransmit - 1)];
          }
        } else {
          remaining := remaining + [b];
        }
      }
      assert all[|all|..] == [];
      assert sent + [] == sent && remaining + [] == remaining;
      queue := remaining;
    }
  }

  /** One iteration of the loop, against the reference sweep. */
  lemma SweepNext(q: Queue, limit: int, used: nat, sent: Queue, kept: Queue)
    requires q != []
    ensures var b, s := q[0], Sweep(q, limit, used);
            if used + |b.msg| <= limit then
              var rest := Sweep(q[1..], limit, used + |b.msg|);
              var left := if b.retransmit - 1 > 0 then kept + [b.(retransmit := b.retransmit - 1)] else kept;
              Swept(sent + s.sent, kept + s.kept) == Swept(sent + [b] + rest.sent, left + rest.kept)
            else
              var rest := Sweep(q[1..], limit, used);
              Swept(sent + s.sent, kept + s.kept) == Swept(sent + rest.sent, kept + [b] + rest.kept)
  {
  }
}
