/** The replicated session table: a map from key to the newest entry seen, capped by evicting the
    oldest entries. Replicas exchange tables in any order; the cap must not make them disagree.
    The health table is the same map without a cap. Times are integers; expiry is left out. */
module Sessions {
  import opened Collections

  type Key = string

  datatype Stamped<V> = Stamped(time: int, value: V)
  datatype Entry<V> = Entry(key: Key, item: Stamped<V>)

  type Table<V> = map<Key, Stamped<V>>

  // ---------- the reference: what a table should hold ----------

  ghost function Entries<V>(t: Table<V>): set<Entry<V>> {
    set k | k in t :: Entry(k, t[k])
  }

  /** Different entries carry different times. */
  ghost predicate DistinctTimes<V>(s: set<Entry<V>>) {
    forall e, f :: e in s && f in s && e.item.time == f.item.time ==> e == f
  }

  /** The keys that have an entry newer than `time`. */
  ghost function NewerKeys<V>(s: set<Entry<V>>, time: int): set<Key> {
    set e | e in s && e.item.time > time :: e.key
  }

  ghost function Newer<V>(s: set<Entry<V>>, time: int): set<Entry<V>> {
    set e | e in s && e.item.time > time
  }

  /** The newest entry of each key, if fewer than `cap` keys have something newer.
      A cap of zero or less means no cap. */
  ghost predicate Kept<V>(s: set<Entry<V>>, cap: int, e: Entry<V>) {
    && e.key !in NewerKeys(s, e.item.time)
    && (cap > 0 ==> |NewerKeys(s, e.item.time)| < cap)
  }

  ghost function Retained<V>(s: set<Entry<V>>, cap: int): set<Entry<V>> {
    set e | e in s && Kept(s, cap, e)
  }

  // ---------- capping loses nothing that a later merge could need ----------

  lemma NewerKeysGrow<V>(s: set<Entry<V>>, u: set<Entry<V>>, time: int, later: int)
    requires s <= u && time <= later
    ensures NewerKeys(s, later) <= NewerKeys(u, time)
    ensures |NewerKeys(s, later)| <= |NewerKeys(u, time)|
  {
    SubsetSize(NewerKeys(s, later), NewerKeys(u, time));
  }

  lemma {:induction false} NewestOf<V>(s: set<Entry<V>>, time: int, k: Key) returns (e: Entry<V>)
    requires k in NewerKeys(s, time)
    ensures e in s && e.key == k && e.item.time > time && k !in NewerKeys(s, e.item.time)
    decreases |Newer(s, time)|
  {
    e :| e in s && e.item.time > time && e.key == k;
    if k in NewerKeys(s, e.item.time) {
      assert Newer(s, e.item.time) <= Newer(s, time) - {e};
      SubsetSize(Newer(s, e.item.time), Newer(s, time) - {e});
      e := NewestOf(s, e.item.time, k);
    }
  }

  lemma {:induction false} OldestAfter<V>(s: set<Entry<V>>, time: int) returns (e: Entry<V>)
    requires Newer(s, time) != {}
    ensures e in Newer(s, time) && forall f :: f in Newer(s, time) ==> e.item.time <= f.item.time
    decreases |s|
  {
    e :| e in Newer(s, time);
    if f :| f in Newer(s, time) && f.item.time < e.item.time {
      var rest := set g | g in s && g.item.time < e.item.time;
      assert rest <= s - {e};
      SubsetSize(rest, s - {e});
      assert f in Newer(rest, time);
      var e' := OldestAfter(rest, time);
      forall g | g in Newer(s, time) ensures e'.item.time <= g.item.time {
        if g.item.time < e.item.time {
          assert g in Newer(rest, time);
        }
      }
      e := e';
    }
  }

  /** With at most `cap` keys newer than a time, capping keeps all of them newer than it. */
  lemma CapKeepsFew<V>(s: set<Entry<V>>, cap: int, time: int)
    requires cap > 0 ==> |NewerKeys(s, time)| <= cap
    ensures NewerKeys(Retained(s, cap), time) == NewerKeys(s, time)
  {
    forall k | k in NewerKeys(s, time) ensures k in NewerKeys(Retained(s, cap), time) {
      var e := NewestOf(s, time, k);
      assert NewerKeys(s, e.item.time) <= NewerKeys(s, time) - {k};
      SubsetSize(NewerKeys(s, e.item.time), NewerKeys(s, time) - {k});
      assert e in Retained(s, cap);
    }
  }

  /** With `cap` keys or more newer than a time, capping keeps at least `cap` of them. */
  lemma {:induction false} CapKeepsEnough<V>(s: set<Entry<V>>, cap: int, time: int)
    requires DistinctTimes(s) && 0 < cap <= |NewerKeys(s, time)|
    ensures |NewerKeys(Retained(s, cap), time)| >= cap
    decreases |Newer(s, time)|
  {
    if |NewerKeys(s, time)| == cap {
      CapKeepsFew(s, cap, time);
    } else {
      var k :| k in NewerKeys(s, time);
      var some := NewestOf(s, time, k);
      assert some in Newer(s, time);
      var e := OldestAfter(s, time);
      var t := e.item.time;
      assert NewerKeys(s, time) - {e.key} <= NewerKeys(s, t);
      SubsetSize(NewerKeys(s, time) - {e.key}, NewerKeys(s, t));
      assert Newer(s, t) <= Newer(s, time) - {e};
      SubsetSize(Newer(s, t), Newer(s, time) - {e});
      CapKeepsEnough(s, cap, t);
      NewerKeysGrow(Retained(s, cap), Retained(s, cap), time, t);
    }
  }

  /** What capping one part leaves visible of the whole, at any time. */
  lemma NewerAfterCap<V>(a: set<Entry<V>>, b: set<Entry<V>>, cap: int, time: int)
    requires DistinctTimes(a)
    ensures var whole, part := NewerKeys(a + b, time), NewerKeys(Retained(a, cap) + b, time);
            && part <= whole
            && (cap > 0 && |whole| >= cap ==> |part| >= cap)
            && (cap > 0 && |whole| < cap ==> part == whole)
            && (cap <= 0 ==> part == whole)
  {
    var kept := Retained(a, cap);
    assert NewerKeys(a + b, time) == NewerKeys(a, time) + NewerKeys(b, time);
    assert NewerKeys(kept + b, time) == NewerKeys(kept, time) + NewerKeys(b, time);
    NewerKeysGrow(a, a + b, time, time);
    NewerKeysGrow(kept, kept + b, time, time);
    if cap > 0 && |NewerKeys(a, time)| >= cap {
      CapKeepsEnough(a, cap, time);
    } else {
      CapKeepsFew(a, cap, time);
    }
  }

  /** The cap absorbs: truncating before a merge changes nothing after the merge is truncated. */
  lemma CapAbsorbs<V>(a: set<Entry<V>>, b: set<Entry<V>>, cap: int)
    requires DistinctTimes(a + b)
    ensures Retained(Retained(a, cap) + b, cap) == Retained(a + b, cap)
  {
    var kept := Retained(a, cap);
    forall e
      ensures e in Retained(kept + b, cap) <==> e in Retained(a + b, cap)
    {
      NewerAfterCap(a, b, cap, e.item.time);
      if e in Retained(a + b, cap) && e in a {
        NewerKeysGrow(a, a + b, e.item.time, e.item.time);
        assert e in kept;
      }
    }
  }

  lemma CapAbsorbsBoth<V>(a: set<Entry<V>>, b: set<Entry<V>>, cap: int)
    requires DistinctTimes(a + b)
    ensures Retained(Retained(a, cap) + Retained(b, cap), cap) == Retained(a + b, cap)
  {
    CapAbsorbs(a, Retained(b, cap), cap);
    assert a + Retained(b, cap) == Retained(b, cap) + a && a + b == b + a;
    CapAbsorbs(b, a, cap);
  }

  // ---------- merging and evicting on tables ----------

  function Merge<V>(t: Table<V>, incoming: Table<V>): Table<V> {
    map k | k in t.Keys + incoming.Keys ::
      if k in incoming && (k !in t || incoming[k].time > t[k].time) then incoming[k] else t[k]
  }

  /** `after` is `t` cut to at most `cap` entries, none dropped being newer than one kept. */
  ghost predicate CutTo<V>(t: Table<V>, cap: int, after: Table<V>) {
    if cap <= 0 || |t| <= cap then after == t
    else
      && |after| == cap && after.Keys <= t.Keys
      && (forall k :: k in after ==> after[k] == t[k])
      && (forall k, d :: k in after && d in t && d !in after ==> t[d].time <= t[k].time)
  }

  ghost predicate Delivers<V>(t: Table<V>, incoming: Table<V>, cap: int, after: Table<V>) {
    CutTo(Merge(t, incoming), cap, after)
  }

  lemma InEntries<V>(t: Table<V>, e: Entry<V>)
    ensures e in Entries(t) <==> e.key in t && t[e.key] == e.item
  {
    if e.key in t && t[e.key] == e.item {
      assert e == Entry(e.key, t[e.key]);
    }
  }

  lemma NewerInTable<V>(t: Table<V>, time: int, k: Key)
    ensures k in NewerKeys(Entries(t), time) <==> k in t && t[k].time > time
  {
    if k in t && t[k].time > time {
      assert Entry(k, t[k]) in Entries(t);
    }
  }

  lemma NewerInEither<V>(t: Table<V>, u: Table<V>, time: int, k: Key)
    ensures k in NewerKeys(Entries(t) + Entries(u), time) <==>
            (k in t && t[k].time > time) || (k in u && u[k].time > time)
  {
    NewerInTable(t, time, k);
    NewerInTable(u, time, k);
    assert NewerKeys(Entries(t) + Entries(u), time) == NewerKeys(Entries(t), time) + NewerKeys(Entries(u), time);
  }

  lemma MergeRetains<V>(t: Table<V>, incoming: Table<V>)
    requires DistinctTimes(Entries(t) + Entries(incoming))
    ensures Entries(Merge(t, incoming)) == Retained(Entries(t) + Entries(incoming), 0)
  {
    var s := Entries(t) + Entries(incoming);
    forall e
      ensures e in Entries(Merge(t, incoming)) <==> e in Retained(s, 0)
    {
      var k := e.key;
      NewerInEither(t, incoming, e.item.time, k);
      InEntries(Merge(t, incoming), e);
      InEntries(t, e);
      InEntries(incoming, e);
      if k in t && k in incoming {
        assert Entry(k, t[k]) in s && Entry(k, incoming[k]) in s;
      }
    }
  }

  /** In a cut table an entry survives exactly when fewer than `cap` keys are newer. */
  lemma CutKeepsExactly<V>(t: Table<V>, cap: int, after: Table<V>, k: Key)
    requires DistinctTimes(Entries(t)) && CutTo(t, cap, after) && k in t
    ensures k in after <==> cap <= 0 || |NewerKeys(Entries(t), t[k].time)| < cap
  {
    var newer := NewerKeys(Entries(t), t[k].time);
    forall d ensures d in newer <==> d in t && t[d].time > t[k].time {
      NewerInTable(t, t[k].time, d);
    }
    if cap <= 0 || |t| <= cap {
      SubsetSize(newer, t.Keys - {k});
    } else if k in after {
      SubsetSize(newer, after.Keys - {k});
    } else {
      InEntries(t, Entry(k, t[k]));
      forall d | d in after ensures d in newer {
        InEntries(t, Entry(d, t[d]));
      }
      SubsetSize(after.Keys, newer);
    }
  }

  lemma CutRetains<V>(t: Table<V>, cap: int, after: Table<V>)
    requires DistinctTimes(Entries(t)) && CutTo(t, cap, after)
    ensures Entries(after) == Retained(Entries(t), cap)
  {
    forall e
      ensures e in Entries(after) <==> e in Retained(Entries(t), cap)
    {
      if e.key in t && e == Entry(e.key, t[e.key]) {
        CutKeepsExactly(t, cap, after, e.key);
        NewerInTable(t, e.item.time, e.key);
      }
    }
  }

  lemma UncappedFirst<V>(s: set<Entry<V>>, cap: int)
    ensures Retained(Retained(s, 0), cap) == Retained(s, cap)
  {
    forall e
      ensures e in Retained(Retained(s, 0), cap) <==> e in Retained(s, cap)
    {
      CapKeepsFew(s, 0, e.item.time);
    }
  }

  lemma DeliveryRetains<V>(t: Table<V>, incoming: Table<V>, cap: int, after: Table<V>)
    requires DistinctTimes(Entries(t) + Entries(incoming)) && Delivers(t, incoming, cap, after)
    ensures Entries(after) == Retained(Entries(t) + Entries(incoming), cap)
  {
    MergeRetains(t, incoming);
    CutRetains(Merge(t, incoming), cap, after);
    UncappedFirst(Entries(t) + Entries(incoming), cap);
  }

  // ---------- one replica, any sequence of deliveries ----------

  ghost function Delivered<V>(batches: seq<Table<V>>): set<Entry<V>> {
    if batches == [] then {} else Delivered(batches[..|batches| - 1]) + Entries(batches[|batches| - 1])
  }

  ghost predicate IsHistory<V>(states: seq<Table<V>>, batches: seq<Table<V>>, cap: int) {
    && |states| == |batches| + 1 && states[0] == map[]
    && forall i :: 0 <= i < |batches| ==> Delivers(states[i], batches[i], cap, states[i + 1])
  }

  /** After any sequence of merges the table holds exactly the `cap` newest of the per-key newest
      entries ever delivered. */
  lemma {:induction false} HistoryConverges<V>(states: seq<Table<V>>, batches: seq<Table<V>>, cap: int)
    requires IsHistory(states, batches, cap) && DistinctTimes(Delivered(batches))
    ensures Entries(states[|batches|]) == Retained(Delivered(batches), cap)
    decreases |batches|
  {
    if batches == [] {
    } else {
      var k := |batches| - 1;
      var before, last := Delivered(batches[..k]), Entries(batches[k]);
      HistoryConverges(states[..k + 1], batches[..k], cap);
      DeliveryRetains(states[k], batches[k], cap, states[k + 1]);
      CapAbsorbs(before, last, cap);
    }
  }

  lemma EntriesDetermine<V>(t: Table<V>, u: Table<V>)
    requires Entries(t) == Entries(u)
    ensures t == u
  {
    forall k | k in t ensures k in u && u[k] == t[k] {
      assert Entry(k, t[k]) in Entries(u);
    }
    forall k | k in u ensures k in t {
      assert Entry(k, u[k]) in Entries(t);
    }
  }

  /** Two replicas that were delivered the same entries, in whatever order, grouping and number of
      repetitions, hold the same table. */
  lemma ReplicasConverge<V>(
      states1: seq<Table<V>>, batches1: seq<Table<V>>, states2: seq<Table<V>>, batches2: seq<Table<V>>, cap: int)
    requires IsHistory(states1, batches1, cap) && IsHistory(states2, batches2, cap)
    requires Delivered(batches1) == Delivered(batches2) && DistinctTimes(Delivered(batches1))
    ensures states1[|batches1|] == states2[|batches2|]
  {
    HistoryConverges(states1, batches1, cap);
    HistoryConverges(states2, batches2, cap);
    EntriesDetermine(states1[|batches1|], states2[|batches2|]);
  }

  /** Why the times must differ: for two entries of one key, the order of arrival is unobservable
      exactly when the entries are the same or their times differ. */
  lemma OrderUnobservableExactly<V>(k: Key, a: Stamped<V>, b: Stamped<V>)
    ensures Merge(Merge(map[], map[k := a]), map[k := b]) == Merge(Merge(map[], map[k := b]), map[k := a])
            <==> a == b || a.time != b.time
  {
    var ab := Merge(Merge(map[], map[k := a]), map[k := b]);
    var ba := Merge(Merge(map[], map[k := b]), map[k := a]);
    assert ab[k] == (if b.time > a.time then b else a);
    assert ba[k] == (if a.time > b.time then a else b);
    assert ab.Keys == ba.Keys == {k};
  }

  // ---------- the local write ----------

  /** A local write overwrites unconditionally. It is a merge of that one entry exactly when the key
      is new, the clock is past the entry it replaces, or nothing changes. */
  lemma WriteIsMergeExactly<V>(t: Table<V>, k: Key, item: Stamped<V>)
    ensures t[k := item] == Merge(t, map[k := item]) <==> k !in t || item.time > t[k].time || item == t[k]
  {
    var m := Merge(t, map[k := item]);
    assert m.Keys == t.Keys + {k};
    assert m[k] == if k !in t || item.time > t[k].time then item else t[k];
    assert t[k := item][k] == item;
  }

  // ---------- eviction and the empty key ----------

  ghost predicate IsOldest<V>(t: Table<V>, k: Key) {
    k in t && forall d :: d in t ==> t[k].time <= t[d].time
  }

  /** The keys other than the empty one whose entry is at least as new as the empty key's. */
  ghost function NotOlderThanEmpty<V>(t: Table<V>): set<Key>
    requires "" in t
  {
    set k | k in t && k != "" && t[k].time >= t[""].time
  }

  /** The eviction loop, which never deletes the empty key, cannot come to rest on it. */
  ghost predicate EvictionEnds<V>(t: Table<V>, cap: int) {
    cap <= 0 || "" !in t || |NotOlderThanEmpty(t)| < cap
  }

  lemma OldestExists<V>(t: Table<V>) returns (k: Key)
    requires t != map[]
    ensures IsOldest(t, k)
    decreases |t|
  {
    var some :| some in t;
    k := some;
    if d :| d in t && t[d].time < t[some].time {
      var rest := t - {some};
      assert rest.Keys == t.Keys - {some} && d in rest;
      k := OldestExists(rest);
      assert rest[k].time <= rest[d].time;
      assert forall c :: c in t && c != some ==> rest[k].time <= rest[c].time;
    }
  }

  lemma OldestEmptyBlocks<V>(t: Table<V>, cap: int, k: Key)
    requires 0 < cap < |t| && IsOldest(t, k)
    ensures k == "" ==> !EvictionEnds(t, cap)
  {
    if k == "" {
      assert NotOlderThanEmpty(t) == t.Keys - {""};
    }
  }

  datatype Outcome<V> = Ended(table: Table<V>) | Spins

  /** The loop as a reference: delete an oldest entry until the cap is met; if the oldest is under
      the empty key, nothing is deleted and the loop spins. */
  ghost predicate Evicts<V>(t: Table<V>, cap: int, out: Outcome<V>)
    decreases |t|
  {
    if cap <= 0 || |t| <= cap then out == Ended(t)
    else exists k :: IsOldest(t, k) && (if k == "" then out == Spins
                                        else assert (t - {k}).Keys == t.Keys - {k}; Evicts(t - {k}, cap, out))
  }

  lemma EvictingKeepsEnding<V>(t: Table<V>, cap: int, k: Key, rest: Table<V>)
    requires DistinctTimes(Entries(t)) && 0 < cap < |t| && IsOldest(t, k) && k != "" && rest == t - {k}
    ensures DistinctTimes(Entries(rest))
    ensures EvictionEnds(rest, cap) <==> EvictionEnds(t, cap)
  {
    assert rest.Keys == t.Keys - {k};
    assert Entries(rest) <= Entries(t);
    if "" in t {
      assert Entry(k, t[k]) in Entries(t) && Entry("", t[""]) in Entries(t);
      assert NotOlderThanEmpty(rest) == NotOlderThanEmpty(t);
    }
  }

  /** With distinct times the loop ends exactly when fewer than `cap` keys are newer than the empty
      key's entry, or there is none. */
  lemma {:induction false} EvictionEndsExactly<V>(t: Table<V>, cap: int, out: Outcome<V>)
    requires DistinctTimes(Entries(t)) && Evicts(t, cap, out)
    ensures out.Ended? <==> EvictionEnds(t, cap)
    decreases |t|
  {
    if cap <= 0 || |t| <= cap {
      if "" in t {
        assert NotOlderThanEmpty(t) <= t.Keys - {""};
        SubsetSize(NotOlderThanEmpty(t), t.Keys - {""});
      }
    } else {
      var k :| IsOldest(t, k) && (if k == "" then out == Spins
                                  else assert (t - {k}).Keys == t.Keys - {k}; Evicts(t - {k}, cap, out));
      OldestEmptyBlocks(t, cap, k);
      if k != "" {
        EvictingKeepsEnding(t, cap, k, t - {k});
        EvictionEndsExactly(t - {k}, cap, out);
      }
    }
  }

  lemma CutAfterOldest<V>(t: Table<V>, cap: int, k: string, rest: Table<V>, after: Table<V>)
    requires 0 < cap < |t| && IsOldest(t, k) && rest == t - {k} && CutTo(rest, cap, after)
    ensures CutTo(t, cap, after)
  {
    assert rest.Keys == t.Keys - {k};
    assert |rest| == |t| - 1 && |after| == cap;
    forall x | x in after ensures x in rest && after[x] == t[x] {
    }
    forall x, d | x in after && d in t && d !in after ensures t[d].time <= t[x].time {
      assert d != k ==> d in rest;
    }
  }

  /** The loop always does one or the other: it ends with a properly cut table, or it spins. */
  lemma {:induction false} EvictionOutcome<V>(t: Table<V>, cap: int) returns (out: Outcome<V>)
    ensures Evicts(t, cap, out)
    ensures out.Ended? ==> CutTo(t, cap, out.table)
    decreases |t|
  {
    if cap <= 0 || |t| <= cap {
      out := Ended(t);
    } else {
      var k := OldestExists(t);
      if k == "" {
        out := Spins;
      } else {
        var rest := t - {k};
        assert rest.Keys == t.Keys - {k};
        out := EvictionOutcome(rest, cap);
        if out.Ended? {
          CutAfterOldest(t, cap, k, rest, out.table);
        }
      }
    }
  }
}
