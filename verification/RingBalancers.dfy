/** The two balancers built on a hash ring, and the loops they share. Hash functions (CRC-32, FNV-1a)
    are parameters. Go's library sort leaves the order of equal positions open; so does `SortRing`,
    of which callers know only that the result is sorted and a permutation. */
module RingBalancers {
  import opened Collections
  import opened Decimal
  import opened HashRing

  const DEFAULT_VIRTUAL_NODES: nat := 150

  datatype Backend = Backend(id: string, address: string, weight: int, available: bool)

  function AvailableIds(list: seq<Backend>): set<string> {
    set b | b in list && b.available :: b.id
  }

  /** The virtual nodes of one backend: the hashes of its numbered names. */
  function VirtualNodes(hash: string -> nat, id: string, sep: char, count: nat): Ring {
    seq(count, i requires 0 <= i < count => Node(hash(id + [sep] + Numeral(i)), id))
  }

  lemma VirtualNodesOwn(hash: string -> nat, id: string, sep: char, count: nat)
    ensures OwnNodes(VirtualNodes(hash, id, sep, count), id)
  {
  }

  /** No two virtual nodes, of the same backend or of different ones, hash the same name. */
  lemma VirtualNamesDistinct(id: string, other: string, sep: char, i: nat, j: nat)
    requires !IsDigit(sep) && (id, i) != (other, j)
    ensures id + [sep] + Numeral(i) != other + [sep] + Numeral(j)
  {
    if id + [sep] + Numeral(i) == other + [sep] + Numeral(j) {
      NumberedNameInjective(id, other, sep, i, j);
    }
  }

  // ---------- shared loops ----------

  function Inserted(ring: Ring, n: Node, i: nat): Ring
    requires i <= |ring|
  {
    ring[..i] + [n] + ring[i..]
  }

  lemma InsertedAt(ring: Ring, n: Node, i: nat, k: nat)
    requires i <= |ring| && k <= |ring|
    ensures Inserted(ring, n, i)[k] == if k < i then ring[k] else if k == i then n else ring[k - 1]
  {
  }

  lemma InsertedMultiset(ring: Ring, n: Node, i: nat)
    requires i <= |ring|
    ensures multiset(Inserted(ring, n, i)) == multiset(ring) + multiset{n}
  {
    assert ring == ring[..i] + ring[i..];
  }

  lemma InsertedSorted(ring: Ring, n: Node, i: nat)
    requires Sorted(ring) && i <= |ring|
    requires forall k :: 0 <= k < i ==> ring[k].hash <= n.hash
    requires forall k :: i <= k < |ring| ==> ring[k].hash >= n.hash
    ensures Sorted(Inserted(ring, n, i))
  {
    var r := Inserted(ring, n, i);
    forall j, k | 0 <= j < k < |r| ensures r[j].hash <= r[k].hash {
      InsertedAt(ring, n, i, j);
      InsertedAt(ring, n, i, k);
    }
  }

  method InsertSorted(ring: Ring, n: Node) returns (r: Ring)
    requires Sorted(ring)
    ensures Sorted(r) && multiset(r) == multiset(ring) + multiset{n}
  {
    var i := |ring|;
    while i > 0 && ring[i - 1].hash > n.hash
      invariant 0 <= i <= |ring|
      invariant forall k :: i <= k < |ring| ==> ring[k].hash > n.hash
    {
      i := i - 1;
    }
    InsertedSorted(ring, n, i);
    InsertedMultiset(ring, n, i);
    r := Inserted(ring, n, i);
  }

  method SortRing(nodes: Ring) returns (r: Ring)
    ensures Sorted(r) && multiset(r) == multiset(nodes)
  {
    r := [];
    for i := 0 to |nodes|
      invariant Sorted(r) && multiset(r) == multiset(nodes[..i])
    {
      r := InsertSorted(r, nodes[i]);
      assert nodes[..i + 1] == nodes[..i] + [nodes[i]];
    }
    assert nodes[..|nodes|] == nodes;
  }

  method AppendVirtualNodes(nodes: Ring, hash: string -> nat, id: string, sep: char, count: nat) returns (r: Ring)
    ensures r == nodes + VirtualNodes(hash, id, sep, count)
  {
    r := nodes;
    for i := 0 to count
      invariant r == nodes + VirtualNodes(hash, id, sep, i)
    {
      var number := IntToString(i);
      r := r + [Node(hash(id + [sep] + number), id)];
      assert VirtualNodes(hash, id, sep, i + 1) ==
             VirtualNodes(hash, id, sep, i) + [Node(hash(id + [sep] + Numeral(i)), id)];
    }
  }

  method DropNodes(nodes: Ring, id: string) returns (kept: Ring)
    ensures kept == Without(nodes, id)
  {
    kept := [];
    for i := 0 to |nodes|
      invariant kept == Without(nodes[..i], id)
    {
      assert nodes[..i + 1] == nodes[..i] + [nodes[i]];
      KeepConcat(nodes[..i], [nodes[i]], NotOf(id));
      KeepOne(nodes[i], NotOf(id));
      if nodes[i].backend != id {
        kept := kept + [nodes[i]];
      }
    }
    assert nodes[..|nodes|] == nodes;
  }

  /** Binary search for the first node at or past the hash, wrapping to the start. */
  method Search(ring: Ring, hash: nat) returns (idx: nat)
    requires Sorted(ring)
    ensures ring == [] ==> idx == 0
    ensures ring != [] ==> idx < |ring| && Clockwise(ring, hash) == Rotate(ring, idx)
  {
    var lo, hi := 0, |ring|;
    while lo < hi
      invariant 0 <= lo <= hi <= |ring|
      invariant forall i :: 0 <= i < lo ==> ring[i].hash < hash
      invariant forall i :: hi <= i < |ring| ==> ring[i].hash >= hash
    {
      var mid := (lo + hi) / 2;
      if ring[mid].hash >= hash {
        hi := mid;
      } else {
        lo := mid + 1;
      }
    }
    ClockwiseIsRotation(ring, hash, lo);
    idx := if lo >= |ring| then 0 else lo;
  }

  /** The walk round the ring from `start` to the first available backend. */
  method Walk(ring: Ring, start: nat, available: set<string>) returns (r: Option<string>)
    requires start < |ring|
    ensures r == FirstAvailable(Rotate(ring, start), available)
  {
    ghost var round := Rotate(ring, start);
    for i := 0 to |ring|
      invariant FirstAvailable(round, available) == FirstAvailable(round[i..], available)
    {
      RotateAt(ring, start, i);
      var node := ring[(start + i) % |ring|];
      if node.backend in available {
        return Some(node.backend);
      }
      assert round[i..][1..] == round[i + 1..];
    }
    r := None;
  }

  /** The first listed backend with the identifier that is available. */
  method FindAvailable(list: seq<Backend>, id: string) returns (r: Option<Backend>)
    ensures r.Some? <==> id in AvailableIds(list)
    ensures r.Some? ==> r.value in list && r.value.id == id && r.value.available
  {
    for i := 0 to |list|
      invariant forall k :: 0 <= k < i ==> list[k].id != id || !list[k].available
    {
      if list[i].id == id && list[i].available {
        return Some(list[i]);
      }
    }
    r := None;
  }

  /** The first listed backend with the identifier, available or not. */
  method FindListed(list: seq<Backend>, id: string) returns (r: Option<Backend>)
    ensures r.Some? <==> exists b :: b in list && b.id == id
    ensures r.Some? ==> r.value in list && r.value.id == id
  {
    for i := 0 to |list|
      invariant forall k :: 0 <= k < i ==> list[k].id != id
    {
      if list[i].id == id {
        return Some(list[i]);
      }
    }
    r := None;
  }

  /** The set of available identifiers, as the fallback gathers it. */
  method GatherAvailable(list: seq<Backend>) returns (available: map<string, Backend>)
    ensures available.Keys == AvailableIds(list)
    ensures forall id :: id in available ==>
              available[id] in list && available[id].id == id && available[id].available
  {
    available := map[];
    for i := 0 to |list|
      invariant available.Keys == AvailableIds(list[..i])
      invariant forall id :: id in available ==>
                  available[id] in list && available[id].id == id && available[id].available
    {
      assert list[..i + 1] == list[..i] + [list[i]];
      if list[i].available {
        available := available[list[i].id := list[i]];
      }
    }
    assert list[..|list|] == list;
  }

  lemma OwnerIsFirst(ring: Ring, idx: nat, available: set<string>)
    requires idx < |ring| && ring[idx].backend in available
    ensures FirstAvailable(Rotate(ring, idx), available) == Some(ring[idx].backend)
  {
    assert Rotate(ring, idx)[0] == ring[idx];
  }

  lemma {:induction false} NoneAvailable(nodes: Ring)
    ensures FirstAvailable(nodes, {}) == None
  {
    if nodes == [] {
    } else {
      NoneAvailable(nodes[1..]);
    }
  }

  lemma NothingToFind(ring: Ring, hash: nat, list: seq<Backend>)
    requires ring == [] || list == []
    ensures Lookup(ring, hash, AvailableIds(list)) == None
  {
    assert ring == [] ==> Clockwise(ring, hash) == [];
    assert list == [] ==> AvailableIds(list) == {};
    NoneAvailable(Clockwise(ring, hash));
  }

  function IdOf(r: Option<Backend>): Option<string> {
    if r.Some? then Some(r.value.id) else None
  }

  // ---------- the consistent-hash balancer ----------

  /** The nodes each registered backend contributes. */
  ghost function Parts(hash: string -> nat, ids: set<string>, count: nat): map<string, Ring> {
    map id | id in ids :: VirtualNodes(hash, id, ':', count)
  }

  lemma AddedIsRingOf(ring: Ring, ids: set<string>, hash: string -> nat, vnodes: nat, id: string, after: Ring)
    requires IsRingOf(ring, Parts(hash, ids, vnodes)) && id !in ids
    requires Sorted(after) && multiset(after) == multiset(ring + VirtualNodes(hash, id, ':', vnodes))
    ensures IsRingOf(after, Parts(hash, ids + {id}, vnodes))
  {
    var added := VirtualNodes(hash, id, ':', vnodes);
    VirtualNodesOwn(hash, id, ':', vnodes);
    AddIsRingOf(ring, Parts(hash, ids, vnodes), id, added, after);
    assert Parts(hash, ids, vnodes)[id := added] == Parts(hash, ids + {id}, vnodes);
  }

  method AddNodes(ring: Ring, hash: string -> nat, vnodes: nat, id: string, ghost ids: set<string>)
      returns (after: Ring)
    requires IsRingOf(ring, Parts(hash, ids, vnodes)) && id !in ids
    ensures IsRingOf(after, Parts(hash, ids + {id}, vnodes))
    ensures multiset(after) == multiset(ring) + multiset(VirtualNodes(hash, id, ':', vnodes))
  {
    var all := AppendVirtualNodes(ring, hash, id, ':', vnodes);
    after := SortRing(all);
    AddedIsRingOf(ring, ids, hash, vnodes, id, after);
  }

  /** The balancer's answer: the reference lookup, except that a first node under the empty
      identifier ends it. */
  function Answer(ring: Ring, hash: nat, available: set<string>): Option<string> {
    var round := Clockwise(ring, hash);
    if round != [] && round[0].backend == "" then None else Lookup(ring, hash, available)
  }

  lemma {:induction false} FoundExactly(nodes: Ring, available: set<string>)
    ensures FirstAvailable(nodes, available).Some? <==> exists n :: n in nodes && n.backend in available
  {
    if nodes == [] {
    } else {
      assert nodes == [nodes[0]] + nodes[1..];
      FoundExactly(nodes[1..], available);
    }
  }

  /** The exception shows exactly when the key's first node is under the empty identifier and some
      node's backend is available. */
  lemma AnswerIsLookupExactly(ring: Ring, hash: nat, available: set<string>)
    ensures Answer(ring, hash, available) == Lookup(ring, hash, available) <==>
            var round := Clockwise(ring, hash);
            !(round != [] && round[0].backend == "" && exists n :: n in ring && n.backend in available)
  {
    FoundExactly(Clockwise(ring, hash), available);
    KeepMembers(ring, AtOrPast(hash));
    KeepMembers(ring, Before(hash));
  }

  predicate NoEmptyIdentifier(ring: Ring) {
    forall n :: n in ring ==> n.backend != ""
  }

  /** So without a node under that identifier the balancer's answer is the clockwise lookup. */
  lemma AnswerIsLookup(ring: Ring, hash: nat, available: set<string>)
    requires NoEmptyIdentifier(ring)
    ensures Answer(ring, hash, available) == Lookup(ring, hash, available)
  {
    AnswerIsLookupExactly(ring, hash, available);
    KeepMembers(ring, AtOrPast(hash));
    KeepMembers(ring, Before(hash));
    var round := Clockwise(ring, hash);
    assert round != [] ==> round[0] in Keep(ring, AtOrPast(hash)) || round[0] in Keep(ring, Before(hash));
  }

  /** Dropping a backend that a key was not sent to keeps the balancer's answer for the key. */
  lemma UnselectedDropKeepsAnswer(ring: Ring, hash: nat, id: string, available: set<string>)
    requires NoEmptyIdentifier(ring) && Answer(ring, hash, available) != Some(id)
    ensures Answer(ring, hash, available - {id}) == Answer(ring, hash, available)
    ensures Answer(Without(ring, id), hash, available) == Answer(ring, hash, available)
  {
    KeepMembers(ring, NotOf(id));
    AnswerIsLookup(ring, hash, available);
    AnswerIsLookup(ring, hash, available - {id});
    AnswerIsLookup(Without(ring, id), hash, available);
    UnselectedDropKeeps(ring, hash, id, available);
  }

  /** Adding a backend only moves the balancer's answers onto it. */
  lemma AddOnlyAttractsAnswers(before: Ring, added: Ring, ring: Ring, id: string, hash: nat, available: set<string>)
    requires Sorted(before) && Sorted(ring) && multiset(ring) == multiset(before) + multiset(added)
    requires OwnNodes(added, id) && (forall n :: n in before ==> n.backend != id)
    requires NoSharedPosition(ring) && NoEmptyIdentifier(ring)
    ensures Answer(ring, hash, available) in {Some(id), Answer(before, hash, available)}
  {
    forall n | n in before ensures n.backend != "" {
      assert multiset(ring)[n] > 0 && n in ring;
    }
    AnswerIsLookup(ring, hash, available);
    AnswerIsLookup(before, hash, available);
    AddOnlyAttracts(before, added, ring, id, hash, available);
  }

  lemma {:induction false} KeepMembers(ring: Ring, f: Filter)
    ensures forall n :: n in Keep(ring, f) <==> n in ring && f.Passes(n)
  {
    if ring == [] {
    } else {
      KeepMembers(ring[1..], f);
    }
  }

  class ConsistentHash {
    const hash: string -> nat
    const vnodes: nat
    var nodes: Ring
    var backends: map<string, Backend>

    /** The ring stands for exactly the registered backends. */
    ghost predicate Valid()
      reads this
    {
      IsRingOf(nodes, Parts(hash, backends.Keys, vnodes))
    }

    constructor (crc: string -> nat, count: int)
      ensures Valid() && backends == map[] && hash == crc
      ensures vnodes == if count > 0 then count else DEFAULT_VIRTUAL_NODES
    {
      hash := crc;
      vnodes := if count <= 0 then DEFAULT_VIRTUAL_NODES else count;
      nodes, backends := [], map[];
    }

    method Remove(id: string)
      requires Valid()
      modifies this
      ensures Valid() && nodes == Without(old(nodes), id) && backends == old(backends) - {id}
    {
      backends := backends - {id};
      var kept := DropNodes(nodes, id);
      WithoutIsRingOf(nodes, Parts(hash, old(backends).Keys, vnodes), id);
      assert Parts(hash, old(backends).Keys, vnodes) - {id} == Parts(hash, backends.Keys, vnodes);
      nodes := kept;
    }

    method Add(b: Backend)
      requires Valid()
      modifies this
      ensures Valid() && backends == old(backends)[b.id := b]
      ensures multiset(nodes) == multiset(Without(old(nodes), b.id))
                                 + multiset(VirtualNodes(hash, b.id, ':', vnodes))
    {
      Remove(b.id);
      nodes := AddNodes(nodes, hash, vnodes, b.id, backends.Keys);
      backends := backends[b.id := b];
      assert backends.Keys == (old(backends).Keys - {b.id}) + {b.id};
    }

    /** Binary search plus fallback is the clockwise walk. */
    method NextWithKey(list: seq<Backend>, key: string) returns (r: Option<Backend>)
      requires Valid()
      ensures r.Some? ==> r.value in list && r.value.available
      ensures IdOf(r) == Answer(nodes, hash(key), AvailableIds(list))
    {
      if |nodes| == 0 || |list| == 0 {
        NothingToFind(nodes, hash(key), list);
        return None;
      }
      var idx := Search(nodes, hash(key));
      assert Rotate(nodes, idx)[0] == nodes[idx];
      var owner := nodes[idx].backend;
      if owner == "" {
        return None;
      }
      r := FindAvailable(list, owner);
      if r.Some? {
        OwnerIsFirst(nodes, idx, AvailableIds(list));
        return;
      }
      var available := GatherAvailable(list);
      if |available| == 0 {
        assert available.Keys == {};
        NoneAvailable(Clockwise(nodes, hash(key)));
        return None;
      }
      var found := Walk(nodes, idx, available.Keys);
      WalkFinds(Rotate(nodes, idx), available.Keys);
      r := if found.Some? then Some(available[found.value]) else None;
    }
  }

  lemma {:induction false} WalkFinds(nodes: Ring, available: set<string>)
    ensures var r := FirstAvailable(nodes, available);
            r.Some? ==> r.value in available
  {
    if nodes == [] {
    } else {
      WalkFinds(nodes[1..], available);
    }
  }

  // ---------- the ring-hash balancer ----------

  const MAX_VIRTUAL_NODES: nat := 10000

  function VirtualCount(vnodes: nat, weight: int): nat {
    var w := if weight <= 0 then 1 else weight;
    if vnodes * w < MAX_VIRTUAL_NODES then vnodes * w else MAX_VIRTUAL_NODES
  }

  function WeightedNodes(hash: string -> nat, vnodes: nat, id: string, b: Backend): Ring {
    VirtualNodes(hash, id, '#', VirtualCount(vnodes, b.weight))
  }

  ghost function WeightedParts(hash: string -> nat, vnodes: nat, backends: map<string, Backend>): map<string, Ring> {
    map id | id in backends :: WeightedNodes(hash, vnodes, id, backends[id])
  }

  /** The nodes gathered so far are those of the backends in `done`. */
  ghost predicate Collected(
    nodes: Ring, hash: string -> nat, vnodes: nat, backends: map<string, Backend>, done: set<string>)
  {
    && done <= backends.Keys
    && forall n: Node :: multiset(nodes)[n] ==
         if n.backend in done then multiset(WeightedNodes(hash, vnodes, n.backend, backends[n.backend]))[n] else 0
  }

  lemma CollectOne(
      nodes: Ring, hash: string -> nat, vnodes: nat, backends: map<string, Backend>, done: set<string>, id: string)
    requires Collected(nodes, hash, vnodes, backends, done) && id in backends && id !in done
    ensures Collected(nodes + WeightedNodes(hash, vnodes, id, backends[id]), hash, vnodes, backends, done + {id})
  {
    var added := WeightedNodes(hash, vnodes, id, backends[id]);
    VirtualNodesOwn(hash, id, '#', VirtualCount(vnodes, backends[id].weight));
    forall n: Node
      ensures multiset(nodes + added)[n] ==
              if n.backend in done + {id}
              then multiset(WeightedNodes(hash, vnodes, n.backend, backends[n.backend]))[n] else 0
    {
      assert multiset(nodes + added)[n] == multiset(nodes)[n] + multiset(added)[n];
      if n.backend != id {
        assert n !in added;
        assert n !in multiset(added);
      }
    }
  }

  class RingHash {
    const hash: string -> nat
    const vnodes: nat
    var ring: Ring
    var backends: map<string, Backend>
    var counter: nat

    ghost predicate Valid()
      reads this
    {
      && IsRingOf(ring, WeightedParts(hash, vnodes, backends))
      && forall id :: id in backends ==> backends[id].id == id
    }

    constructor (fnv: string -> nat, count: int)
      ensures Valid() && backends == map[] && hash == fnv
      ensures vnodes == if count > 0 then count else DEFAULT_VIRTUAL_NODES
    {
      hash := fnv;
      vnodes := if count <= 0 then DEFAULT_VIRTUAL_NODES else count;
      ring, backends, counter := [], map[], 0;
    }

    /** Collects every backend's nodes, in whatever order the map yields them, and sorts. */
    method RebuildRing()
      requires forall id :: id in backends ==> backends[id].id == id
      modifies this`ring
      ensures IsRingOf(ring, WeightedParts(hash, vnodes, backends))
    {
      var all: Ring := [];
      var todo := backends.Keys;
      while todo != {}
        invariant todo <= backends.Keys && Collected(all, hash, vnodes, backends, backends.Keys - todo)
        decreases todo
      {
        var id :| id in todo;
        var b := backends[id];
        var weight := if b.weight <= 0 then 1 else b.weight;
        var count := if vnodes * weight < MAX_VIRTUAL_NODES then vnodes * weight else MAX_VIRTUAL_NODES;
        CollectOne(all, hash, vnodes, backends, backends.Keys - todo, id);
        all := AppendVirtualNodes(all, hash, b.id, '#', count);
        assert backends.Keys - (todo - {id}) == (backends.Keys - todo) + {id};
        todo := todo - {id};
      }
      assert backends.Keys - {} == backends.Keys;
      ring := SortRing(all);
      forall n: Node ensures multiset(ring)[n] == CountIn(WeightedParts(hash, vnodes, backends), n) {
        assert multiset(ring)[n] == multiset(all)[n];
      }
    }

    /** The lookup for a request: by the client's address or, without one, by a running number. */
    method Next(list: seq<Backend>, clientIP: string) returns (r: Option<Backend>)
      requires Valid()
      modifies this`counter
      ensures r.Some? ==> r.value in list
      ensures var key := if clientIP != "" then clientIP else "request-" + Numeral(old(counter) + 1);
              IdOf(r) == Lookup(ring, hash(key), AvailableIds(list))
      ensures counter == old(counter) + if clientIP == "" && ring != [] && list != [] then 1 else 0
    {
      if |ring| == 0 || |list| == 0 {
        ghost var key := if clientIP != "" then clientIP else "request-" + Numeral(counter + 1);
        NothingToFind(ring, hash(key), list);
        return None;
      }
      var key := clientIP;
      if key == "" {
        counter := counter + 1;
        key := "request-" + Numeral(counter);
      }
      r := NextWithKey(list, key);
    }

    method NextWithKey(list: seq<Backend>, key: string) returns (r: Option<Backend>)
      requires Valid() && ring != [] && list != []
      ensures r.Some? ==> r.value in list
      ensures IdOf(r) == Lookup(ring, hash(key), AvailableIds(list))
    {
      var idx := Search(ring, hash(key));
      r := FindAvailable(list, ring[idx].backend);
      if r.Some? {
        OwnerIsFirst(ring, idx, AvailableIds(list));
        return;
      }
      var available := GatherAvailable(list);
      var found := Walk(ring, idx, available.Keys);
      WalkFinds(Rotate(ring, idx), available.Keys);
      if found.None? {
        return None;
      }
      r := FindListed(list, found.value);
    }

    method Add(b: Backend)
      requires Valid()
      modifies this
      ensures Valid()
      ensures backends == if b.id in old(backends) then old(backends) else old(backends)[b.id := b]
    {
      if b.id in backends {
        return;
      }
      backends := backends[b.id := b];
      RebuildRing();
    }

    /** Rebuilding after a removal leaves the old ring with that backend's nodes taken out. */
    method Remove(id: string)
      requires Valid()
      modifies this
      ensures Valid() && backends == old(backends) - {id}
      ensures NoSharedPosition(old(ring)) ==> ring == Without(old(ring), id)
    {
      ghost var before := ring;
      ghost var parts := WeightedParts(hash, vnodes, backends);
      WithoutIsRingOf(ring, parts, id);
      if id !in backends {
        WithoutAbsent(ring, parts, id);
        assert backends - {id} == backends;
        return;
      }
      backends := backends - {id};
      RebuildRing();
      assert parts - {id} == WeightedParts(hash, vnodes, backends);
      if NoSharedPosition(before) {
        WithoutSorted(before, id);
        assert NoSharedPosition(Without(before, id));
        RingUnique(Without(before, id), ring, parts - {id});
      }
    }
  }

  lemma WithoutAbsent(ring: Ring, parts: map<string, Ring>, id: string)
    requires IsRingOf(ring, parts) && id !in parts
    ensures Without(ring, id) == ring
  {
    forall i | 0 <= i < |ring| ensures NotOf(id).Passes(ring[i]) {
      assert multiset(ring)[ring[i]] == CountIn(parts, ring[i]);
      assert ring[i] in multiset(ring);
    }
    KeepAll(ring, NotOf(id));
  }

  /** After rebuilding without a backend, keys of the others keep their answers. */
  lemma RebuiltKeepsOthers(
      hash: string -> nat, vnodes: nat, backends: map<string, Backend>, id: string,
      before: Ring, after: Ring, key: nat, available: set<string>)
    requires IsRingOf(before, WeightedParts(hash, vnodes, backends)) && NoSharedPosition(before)
    requires IsRingOf(after, WeightedParts(hash, vnodes, backends - {id}))
    requires Lookup(before, key, available) != Some(id)
    ensures Lookup(after, key, available) == Lookup(before, key, available)
  {
    var parts := WeightedParts(hash, vnodes, backends);
    WithoutIsRingOf(before, parts, id);
    assert parts - {id} == WeightedParts(hash, vnodes, backends - {id});
    WithoutSorted(before, id);
    assert NoSharedPosition(Without(before, id));
    RingUnique(Without(before, id), after, parts - {id});
    UnselectedDropKeeps(before, key, id, available);
  }
}
