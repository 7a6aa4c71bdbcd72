/** The session table in use: one replica as the program keeps it, and a network of replicas that
    write locally, publish what they hold, and merge what they receive. */
module SessionReplicas {
  import opened Collections
  import opened Sessions

  datatype Session = Session(backend: string, expires: int)
  datatype Health = Health(healthy: bool, lastCheck: int, latency: int, checker: string)

  /** The merge loop over an incoming table, in whatever order its keys come. */
  method MergeLoop<V>(t: Table<V>, incoming: Table<V>) returns (r: Table<V>)
    ensures r == Merge(t, incoming)
  {
    r := t;
    var todo := incoming.Keys;
    while todo != {}
      invariant todo <= incoming.Keys && r.Keys == t.Keys + (incoming.Keys - todo)
      invariant forall k :: k in r ==>
                  r[k] == if k in incoming && k !in todo && (k !in t || incoming[k].time > t[k].time)
                          then incoming[k] else t[k]
      decreases todo
    {
      var key :| key in todo;
      if key !in r || incoming[key].time > r[key].time {
        r := r[key := incoming[key]];
      }
      todo := todo - {key};
    }
  }

  method FindOldest<V>(t: Table<V>) returns (oldest: Key)
    requires t != map[]
    ensures IsOldest(t, oldest)
  {
    var todo := t.Keys;
    oldest :| oldest in todo;
    todo := todo - {oldest};
    while todo != {}
      invariant todo <= t.Keys && oldest in t.Keys - todo
      invariant forall d :: d in t.Keys - todo ==> t[oldest].time <= t[d].time
      decreases todo
    {
      var key :| key in todo;
      if t[key].time < t[oldest].time {
        oldest := key;
      }
      todo := todo - {key};
    }
  }

  class DistributedState {
    const maxEntries: int
    var sessions: Table<Session>
    var health: Table<Health>

    constructor (limit: int)
      ensures maxEntries == limit && sessions == map[] && health == map[]
    {
      maxEntries := limit;
      sessions, health := map[], map[];
    }

    /** Deletes oldest entries until the cap is met. The loop has to be able to end at all. */
    method EnforceSessionLimit()
      requires EvictionEnds(sessions, maxEntries)
      modifies this`sessions
      ensures CutTo(old(sessions), maxEntries, sessions)
    {
      if maxEntries <= 0 {
        return;
      }
      while |sessions| > maxEntries
        invariant sessions.Keys <= old(sessions).Keys
        invariant forall k :: k in sessions ==> sessions[k] == old(sessions)[k]
        invariant forall k, d :: k in sessions && d in old(sessions) && d !in sessions ==>
                    old(sessions)[d].time <= old(sessions)[k].time
        invariant if |old(sessions)| <= maxEntries then sessions == old(sessions) else |sessions| >= maxEntries
        invariant EvictionEnds(sessions, maxEntries)
        decreases |sessions|
      {
        var oldest := FindOldest(sessions);
        ghost var before := sessions;
        OldestEmptyBlocks(before, maxEntries, oldest);
        if oldest != "" {
          sessions := sessions - {oldest};
        }
        assert sessions.Keys == before.Keys - {oldest};
        if "" in sessions {
          SubsetSize(NotOlderThanEmpty(sessions), NotOlderThanEmpty(before));
        }
      }
    }

    method MergeSessions(incoming: Table<Session>)
      requires EvictionEnds(Merge(sessions, incoming), maxEntries)
      modifies this`sessions
      ensures Delivers(old(sessions), incoming, maxEntries, sessions)
    {
      sessions := MergeLoop(sessions, incoming);
      EnforceSessionLimit();
    }

    method PropagateSession(key: Key, item: Stamped<Session>)
      requires EvictionEnds(sessions[key := item], maxEntries)
      modifies this`sessions
      ensures CutTo(old(sessions)[key := item], maxEntries, sessions)
    {
      sessions := sessions[key := item];
      EnforceSessionLimit();
    }

    method MergeHealthStatus(incoming: Table<Health>)
      modifies this`health
      ensures Delivers(old(health), incoming, 0, health)
    {
      health := MergeLoop(health, incoming);
    }
  }

  // ---------- a network of replicas ----------

  /** `seen` is every entry whose write has reached the replica or gone into the message. */
  datatype Replica<V(==)> = Replica(table: Table<V>, seen: set<Entry<V>>)

  datatype Network<V(==)> = Network(replicas: map<string, Replica<V>>, messages: seq<Replica<V>>)

  datatype Event<V> =
    | Write(at: string, entry: Entry<V>)
    | Publish(from: string)
    | Receive(dest: string, message: nat)

  /** One event. A write is not older than the entry it replaces, and is broadcast on its own; a
      replica may publish its whole table at any time; any message may be received by anyone, late,
      repeatedly, or never. */
  ghost predicate Step<V>(n: Network<V>, e: Event<V>, cap: int, after: Network<V>) {
    match e
    case Write(at, entry) =>
      && at in n.replicas && at in after.replicas
      && NotOlder(n.replicas[at].table, entry)
      && CutTo(n.replicas[at].table[entry.key := entry.item], cap, after.replicas[at].table)
      && after.replicas[at].seen == n.replicas[at].seen + {entry}
      && after.replicas == n.replicas[at := after.replicas[at]]
      && after.messages == n.messages + [Replica(map[entry.key := entry.item], {entry})]
    case Publish(from) =>
      && from in n.replicas
      && after == n.(messages := n.messages + [n.replicas[from]])
    case Receive(dest, m) =>
      && dest in n.replicas && dest in after.replicas && m < |n.messages|
      && Delivers(n.replicas[dest].table, n.messages[m].table, cap, after.replicas[dest].table)
      && after.replicas[dest].seen == n.replicas[dest].seen + n.messages[m].seen
      && after == n.(replicas := n.replicas[dest := after.replicas[dest]])
  }

  predicate NotOlder<V>(t: Table<V>, entry: Entry<V>) {
    entry.key in t ==> entry.item.time >= t[entry.key].time
  }

  ghost predicate Faithful<V>(r: Replica<V>, cap: int, all: set<Entry<V>>) {
    r.seen <= all && Entries(r.table) == Retained(r.seen, cap)
  }

  ghost predicate AllFaithful<V>(n: Network<V>, cap: int, all: set<Entry<V>>) {
    && (forall r :: r in n.replicas ==> Faithful(n.replicas[r], cap, all))
    && (forall i :: 0 <= i < |n.messages| ==> Faithful(n.messages[i], cap, all))
  }

  lemma ReceiveFaithful<V>(r: Replica<V>, m: Replica<V>, cap: int, all: set<Entry<V>>, after: Replica<V>)
    requires DistinctTimes(all) && Faithful(r, cap, all) && Faithful(m, cap, all)
    requires Delivers(r.table, m.table, cap, after.table) && after.seen == r.seen + m.seen
    ensures Faithful(after, cap, all)
  {
    DeliveryRetains(r.table, m.table, cap, after.table);
    CapAbsorbsBoth(r.seen, m.seen, cap);
  }

  lemma SingleFaithful<V>(entry: Entry<V>, cap: int, all: set<Entry<V>>)
    requires entry in all
    ensures Faithful(Replica(map[entry.key := entry.item], {entry}), cap, all)
  {
    var t: Table<V> := map[entry.key := entry.item];
    assert NewerKeys({entry}, entry.item.time) == {};
    assert Retained({entry}, cap) == {entry};
    assert Entries(t) == {entry} by {
      forall e ensures e in Entries(t) <==> e == entry {
        InEntries(t, e);
      }
    }
  }

  /** A local write overwrites whatever is there. The replica stays faithful exactly when the write is
      not older than the entry it replaces; otherwise it forgets a newer one. */
  lemma WriteFaithfulExactly<V>(r: Replica<V>, entry: Entry<V>, cap: int, all: set<Entry<V>>, after: Replica<V>)
    requires DistinctTimes(all) && Faithful(r, cap, all) && entry in all
    requires CutTo(r.table[entry.key := entry.item], cap, after.table) && after.seen == r.seen + {entry}
    ensures Faithful(after, cap, all) <==> NotOlder(r.table, entry)
  {
    var k := entry.key;
    if k in r.table {
      InEntries(r.table, Entry(k, r.table[k]));
    }
    if NotOlder(r.table, entry) {
      SingleFaithful(entry, cap, all);
      WriteIsMergeExactly(r.table, k, entry.item);
      ReceiveFaithful(r, Replica(map[k := entry.item], {entry}), cap, all, after);
    } else {
      NewerForgotten(r, entry, cap, after);
    }
  }

  lemma NewerForgotten<V>(r: Replica<V>, entry: Entry<V>, cap: int, after: Replica<V>)
    requires Entries(r.table) == Retained(r.seen, cap) && !NotOlder(r.table, entry)
    requires CutTo(r.table[entry.key := entry.item], cap, after.table) && after.seen == r.seen + {entry}
    ensures Entries(after.table) != Retained(after.seen, cap)
  {
    var newer := Entry(entry.key, r.table[entry.key]);
    InEntries(r.table, newer);
    InEntries(after.table, newer);
    assert newer in Retained(r.seen, cap);
    assert NewerKeys(after.seen, newer.item.time) == NewerKeys(r.seen, newer.item.time);
    assert newer in Retained(after.seen, cap);
  }

  lemma StepFaithful<V>(n: Network<V>, e: Event<V>, cap: int, after: Network<V>, all: set<Entry<V>>)
    requires DistinctTimes(all) && AllFaithful(n, cap, all) && Step(n, e, cap, after)
    requires e.Write? ==> e.entry in all
    ensures AllFaithful(after, cap, all)
  {
    match e
    case Write(at, entry) =>
      SingleFaithful(entry, cap, all);
      WriteFaithfulExactly(n.replicas[at], entry, cap, all, after.replicas[at]);
    case Publish(from) =>
    case Receive(dest, m) =>
      ReceiveFaithful(n.replicas[dest], n.messages[m], cap, all, after.replicas[dest]);
  }

  ghost predicate IsRun<V>(states: seq<Network<V>>, events: seq<Event<V>>, cap: int) {
    && |states| == |events| + 1 && states[0].messages == []
    && (forall r :: r in states[0].replicas ==> states[0].replicas[r] == Replica(map[], {}))
    && (forall i :: 0 <= i < |events| ==> Step(states[i], events[i], cap, states[i + 1]))
  }

  lemma {:induction false} RunFaithful<V>(
      states: seq<Network<V>>, events: seq<Event<V>>, cap: int, all: set<Entry<V>>, i: nat)
    requires IsRun(states, events, cap) && i < |states| && DistinctTimes(all)
    requires forall j :: 0 <= j < |events| && events[j].Write? ==> events[j].entry in all
    ensures AllFaithful(states[i], cap, all)
    decreases i
  {
    if i == 0 {
      var none: set<Entry<V>> := {};
      assert Retained(none, cap) == {};
    } else {
      RunFaithful(states, events, cap, all, i - 1);
      StepFaithful(states[i - 1], events[i - 1], cap, states[i], all);
    }
  }

  /** Over every run of the network: a replica's table is the capped newest of every write that has
      reached it, although the tables that carried them were themselves capped, and replicas reached
      by the same writes agree. */
  lemma NetworkConverges<V>(
      states: seq<Network<V>>, events: seq<Event<V>>, cap: int, all: set<Entry<V>>, i: nat, a: string, b: string)
    requires IsRun(states, events, cap) && i < |states| && DistinctTimes(all)
    requires forall j :: 0 <= j < |events| && events[j].Write? ==> events[j].entry in all
    requires a in states[i].replicas && b in states[i].replicas
    ensures var ra, rb := states[i].replicas[a], states[i].replicas[b];
            && Entries(ra.table) == Retained(ra.seen, cap)
            && (ra.seen == rb.seen ==> ra.table == rb.table)
  {
    RunFaithful(states, events, cap, all, i);
    var ra, rb := states[i].replicas[a], states[i].replicas[b];
    if ra.seen == rb.seen {
      EntriesDetermine(ra.table, rb.table);
    }
  }
}
