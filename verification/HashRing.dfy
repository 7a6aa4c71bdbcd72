/** Lookup on a sorted hash ring. A key belongs to the first node at or past its hash, going round,
    whose backend is available. Two balancers use such a ring: one keeps it sorted as backends come
    and go, the other rebuilds it from scratch. */
module HashRing {
  import opened Collections

  datatype Node = Node(hash: nat, backend: string)

  type Ring = seq<Node>

  ghost predicate Sorted(ring: Ring) {
    forall i, j :: 0 <= i < j < |ring| ==> ring[i].hash <= ring[j].hash
  }

  /** Different backends never share a position, in or between the given nodes. */
  ghost predicate NoSharedPosition(nodes: Ring) {
    forall m, n :: m in nodes && n in nodes && m.hash == n.hash ==> m == n
  }

  // ---------- the reference lookup ----------

  datatype Filter = AtOrPast(hash: nat) | Before(hash: nat) | NotOf(id: string) {
    predicate Passes(n: Node) {
      match this
      case AtOrPast(h) => n.hash >= h
      case Before(h) => n.hash < h
      case NotOf(id) => n.backend != id
    }
  }

  function Keep(ring: Ring, f: Filter): Ring {
    if ring == [] then []
    else (if f.Passes(ring[0]) then [ring[0]] else []) + Keep(ring[1..], f)
  }

  /** The nodes met going clockwise from `hash`: those at or past it, then those before it. */
  function Clockwise(ring: Ring, hash: nat): Ring {
    Keep(ring, AtOrPast(hash)) + Keep(ring, Before(hash))
  }

  /** The first backend met that is available. */
  function FirstAvailable(nodes: Ring, available: set<string>): Option<string> {
    if nodes == [] then None
    else if nodes[0].backend in available then Some(nodes[0].backend)
    else FirstAvailable(nodes[1..], available)
  }

  function Lookup(ring: Ring, hash: nat, available: set<string>): Option<string> {
    FirstAvailable(Clockwise(ring, hash), available)
  }

  /** The ring without a backend's nodes. */
  function Without(ring: Ring, id: string): Ring {
    Keep(ring, NotOf(id))
  }

  // ---------- minimal disruption ----------

  lemma {:induction false} FirstAvailableConcat(a: Ring, b: Ring, available: set<string>)
    ensures FirstAvailable(a + b, available) ==
            if FirstAvailable(a, available).Some? then FirstAvailable(a, available)
            else FirstAvailable(b, available)
    decreases |a|
  {
    if a == [] {
      assert a + b == b;
    } else {
      assert (a + b)[1..] == a[1..] + b;
      FirstAvailableConcat(a[1..], b, available);
    }
  }

  lemma {:induction false} KeepConcat(a: Ring, b: Ring, f: Filter)
    ensures Keep(a + b, f) == Keep(a, f) + Keep(b, f)
    decreases |a|
  {
    if a == [] {
      assert a + b == b;
    } else {
      var head := if f.Passes(a[0]) then [a[0]] else [];
      assert (a + b)[1..] == a[1..] + b && (a + b)[0] == a[0];
      KeepConcat(a[1..], b, f);
      assert head + (Keep(a[1..], f) + Keep(b, f)) == head + Keep(a[1..], f) + Keep(b, f);
    }
  }

  lemma {:induction false} KeepCommutes(ring: Ring, f: Filter, g: Filter)
    ensures Keep(Keep(ring, f), g) == Keep(Keep(ring, g), f)
  {
    if ring == [] {
    } else {
      var head, rest := [ring[0]], ring[1..];
      KeepCommutes(rest, f, g);
      KeepConcat(if f.Passes(ring[0]) then head else [], Keep(rest, f), g);
      KeepConcat(if g.Passes(ring[0]) then head else [], Keep(rest, g), f);
      KeepOne(ring[0], f);
      KeepOne(ring[0], g);
    }
  }

  lemma KeepOne(n: Node, f: Filter)
    ensures Keep([n], f) == if f.Passes(n) then [n] else []
  {
    assert [n][1..] == [];
  }

  /** Taking a backend out of the nodes is the same as making it unavailable. */
  lemma {:induction false} WithoutIsUnavailable(nodes: Ring, id: string, available: set<string>)
    ensures FirstAvailable(Without(nodes, id), available) == FirstAvailable(nodes, available - {id})
  {
    if nodes == [] {
    } else {
      WithoutIsUnavailable(nodes[1..], id, available);
      var head := if nodes[0].backend != id then [nodes[0]] else [];
      FirstAvailableConcat(head, Without(nodes[1..], id), available);
    }
  }

  /** Removing a backend's nodes from the ring answers every key as if it were unavailable. */
  lemma RemovedIsUnavailable(ring: Ring, hash: nat, id: string, available: set<string>)
    ensures Lookup(Without(ring, id), hash, available) == Lookup(ring, hash, available - {id})
  {
    KeepCommutes(ring, AtOrPast(hash), NotOf(id));
    KeepCommutes(ring, Before(hash), NotOf(id));
    KeepConcat(Keep(ring, AtOrPast(hash)), Keep(ring, Before(hash)), NotOf(id));
    WithoutIsUnavailable(Clockwise(ring, hash), id, available);
  }

  lemma {:induction false} UnselectedDoesNotMatter(nodes: Ring, id: string, available: set<string>)
    requires FirstAvailable(nodes, available) != Some(id)
    ensures FirstAvailable(nodes, available - {id}) == FirstAvailable(nodes, available)
  {
    if nodes == [] || nodes[0].backend in available {
    } else {
      UnselectedDoesNotMatter(nodes[1..], id, available);
    }
  }

  /** Dropping a backend that a key was not sent to changes nothing for that key, whether the backend
      becomes unavailable or leaves the ring. */
  lemma UnselectedDropKeeps(ring: Ring, hash: nat, id: string, available: set<string>)
    requires Lookup(ring, hash, available) != Some(id)
    ensures Lookup(ring, hash, available - {id}) == Lookup(ring, hash, available)
    ensures Lookup(Without(ring, id), hash, available) == Lookup(ring, hash, available)
  {
    UnselectedDoesNotMatter(Clockwise(ring, hash), id, available);
    RemovedIsUnavailable(ring, hash, id, available);
  }

  // ---------- sorting ----------

  lemma {:induction false} SortedTail(ring: Ring)
    requires Sorted(ring) && ring != []
    ensures Sorted(ring[1..]) && forall n :: n in ring ==> ring[0].hash <= n.hash
  {
  }

  lemma SameHead(a: Ring, b: Ring)
    requires a != [] && b != [] && Sorted(a) && Sorted(b) && multiset(a) == multiset(b) && NoSharedPosition(a)
    ensures a[0] == b[0]
  {
    assert a[0] in multiset(b) && b[0] in multiset(a);
    assert a[0] in b && b[0] in a;
    SortedTail(a);
    SortedTail(b);
  }

  lemma MultisetTail(a: Ring)
    requires a != []
    ensures multiset(a[1..]) == multiset(a) - multiset{a[0]}
  {
    assert a == [a[0]] + a[1..];
  }

  lemma NoSharedTail(a: Ring)
    requires a != [] && NoSharedPosition(a)
    ensures NoSharedPosition(a[1..])
  {
    forall m, n | m in a[1..] && n in a[1..] && m.hash == n.hash ensures m == n {
      assert m in a && n in a;
    }
  }

  lemma SameLength(a: Ring, b: Ring)
    requires multiset(a) == multiset(b)
    ensures |a| == |b|
  {
    assert |multiset(a)| == |a| && |multiset(b)| == |b|;
  }

  /** Two rings that can both be sorted orders of the same nodes. */
  ghost predicate Rivals(a: Ring, b: Ring) {
    Sorted(a) && Sorted(b) && multiset(a) == multiset(b) && NoSharedPosition(a)
  }

  lemma RivalTails(a: Ring, b: Ring)
    requires a != [] && b != [] && Rivals(a, b)
    ensures a[0] == b[0] && Rivals(a[1..], b[1..])
  {
    SameHead(a, b);
    MultisetTail(a);
    MultisetTail(b);
    NoSharedTail(a);
    SortedTail(a);
    SortedTail(b);
  }

  /** With no position shared between backends, the sorted order of a set of nodes is unique. */
  lemma {:induction false} SortedUnique(a: Ring, b: Ring)
    requires Rivals(a, b)
    ensures a == b
    decreases |a|
  {
    SameLength(a, b);
    if a == [] {
    } else {
      RivalTails(a, b);
      SortedUnique(a[1..], b[1..]);
      assert a == [a[0]] + a[1..] && b == [b[0]] + b[1..];
    }
  }

  lemma {:induction false} WithoutSorted(ring: Ring, id: string)
    requires Sorted(ring)
    ensures Sorted(Without(ring, id)) && forall n :: n in Without(ring, id) <==> n in ring && n.backend != id
  {
    if ring == [] {
    } else {
      SortedTail(ring);
      WithoutSorted(ring[1..], id);
      assert ring == [ring[0]] + ring[1..];
    }
  }

  lemma {:induction false} WithoutMultiset(ring: Ring, id: string, n: Node)
    ensures multiset(Without(ring, id))[n] == if n.backend == id then 0 else multiset(ring)[n]
  {
    if ring == [] {
    } else {
      WithoutMultiset(ring[1..], id, n);
      assert ring == [ring[0]] + ring[1..];
    }
  }

  /** A sorted ring of old and new nodes, with the new backend's taken out, is the old ring. */
  lemma AddThenWithout(old_: Ring, added: Ring, ring: Ring, id: string)
    requires Sorted(old_) && Sorted(ring) && multiset(ring) == multiset(old_) + multiset(added)
    requires forall n :: n in added ==> n.backend == id
    requires forall n :: n in old_ ==> n.backend != id
    requires NoSharedPosition(ring)
    ensures Without(ring, id) == old_
  {
    WithoutSorted(ring, id);
    forall n ensures multiset(Without(ring, id))[n] == multiset(old_)[n] {
      WithoutMultiset(ring, id, n);
      if n.backend == id {
        assert n !in old_;
        assert n !in multiset(old_);
      } else {
        assert n !in added;
        assert n !in multiset(added);
      }
    }
    assert multiset(Without(ring, id)) == multiset(old_);
    forall m, n | m in Without(ring, id) && n in Without(ring, id) && m.hash == n.hash ensures m == n {
      assert m in ring && n in ring;
    }
    SortedUnique(Without(ring, id), old_);
  }

  /** Adding a backend only moves keys onto it: every key keeps its answer or goes to the new one. */
  lemma AddOnlyAttracts(old_: Ring, added: Ring, ring: Ring, id: string, hash: nat, available: set<string>)
    requires Sorted(old_) && Sorted(ring) && multiset(ring) == multiset(old_) + multiset(added)
    requires forall n :: n in added ==> n.backend == id
    requires forall n :: n in old_ ==> n.backend != id
    requires NoSharedPosition(ring)
    ensures Lookup(ring, hash, available) in {Some(id), Lookup(old_, hash, available)}
  {
    AddThenWithout(old_, added, ring, id);
    if Lookup(ring, hash, available) != Some(id) {
      UnselectedDropKeeps(ring, hash, id, available);
    }
  }

  // ---------- rings and the backends they stand for ----------

  /** The ring holds exactly the nodes of the given backends, each as often as it is listed. */
  ghost predicate IsRingOf(ring: Ring, parts: map<string, Ring>) {
    Sorted(ring) && forall n: Node :: multiset(ring)[n] == CountIn(parts, n)
  }

  ghost function CountIn(parts: map<string, Ring>, n: Node): nat {
    if n.backend in parts then multiset(parts[n.backend])[n] else 0
  }

  ghost predicate OwnNodes(nodes: Ring, id: string) {
    forall n :: n in nodes ==> n.backend == id
  }

  /** With no position shared between backends, the ring is determined by the backends it stands
      for: neither the order of additions and removals nor that of a rebuild can show. */
  lemma RingUnique(a: Ring, b: Ring, parts: map<string, Ring>)
    requires IsRingOf(a, parts) && IsRingOf(b, parts) && NoSharedPosition(a)
    ensures a == b
  {
    assert multiset(a) == multiset(b) by {
      forall n: Node ensures multiset(a)[n] == multiset(b)[n] {
        assert multiset(a)[n] == CountIn(parts, n);
      }
    }
    SortedUnique(a, b);
  }

  lemma WithoutIsRingOf(ring: Ring, parts: map<string, Ring>, id: string)
    requires IsRingOf(ring, parts)
    ensures IsRingOf(Without(ring, id), parts - {id})
  {
    WithoutSorted(ring, id);
    forall n: Node ensures multiset(Without(ring, id))[n] == CountIn(parts - {id}, n) {
      WithoutMultiset(ring, id, n);
      assert multiset(ring)[n] == CountIn(parts, n);
    }
  }

  lemma AddIsRingOf(ring: Ring, parts: map<string, Ring>, id: string, added: Ring, after: Ring)
    requires IsRingOf(ring, parts) && id !in parts && OwnNodes(added, id)
    requires Sorted(after) && multiset(after) == multiset(ring) + multiset(added)
    ensures IsRingOf(after, parts[id := added])
  {
    forall n: Node ensures multiset(after)[n] == CountIn(parts[id := added], n) {
      assert multiset(ring)[n] == CountIn(parts, n);
      if n.backend != id {
        assert n !in added;
        assert n !in multiset(added);
      }
    }
  }

  // ---------- searching a sorted ring ----------

  /** `p` separates the nodes before `hash` from those at or past it. */
  ghost predicate Splits(ring: Ring, hash: nat, p: nat) {
    && p <= |ring|
    && (forall i :: 0 <= i < p ==> ring[i].hash < hash)
    && (forall i :: p <= i < |ring| ==> ring[i].hash >= hash)
  }

  lemma {:induction false} KeepAll(ring: Ring, f: Filter)
    requires forall i :: 0 <= i < |ring| ==> f.Passes(ring[i])
    ensures Keep(ring, f) == ring
  {
    if ring == [] {
    } else {
      KeepAll(ring[1..], f);
      assert ring == [ring[0]] + ring[1..];
    }
  }

  lemma {:induction false} KeepNone(ring: Ring, f: Filter)
    requires forall i :: 0 <= i < |ring| ==> !f.Passes(ring[i])
    ensures Keep(ring, f) == []
  {
    if ring == [] {
    } else {
      KeepNone(ring[1..], f);
    }
  }

  function Rotate(ring: Ring, p: nat): Ring
    requires p <= |ring|
  {
    ring[p..] + ring[..p]
  }

  lemma KeepSplit(ring: Ring, hash: nat, p: nat)
    requires Splits(ring, hash, p)
    ensures Keep(ring, AtOrPast(hash)) == ring[p..]
    ensures Keep(ring, Before(hash)) == ring[..p]
  {
    var low, high := ring[..p], ring[p..];
    assert ring == low + high;
    KeepNone(low, AtOrPast(hash));
    KeepAll(high, AtOrPast(hash));
    KeepAll(low, Before(hash));
    KeepNone(high, Before(hash));
    KeepConcat(low, high, AtOrPast(hash));
    KeepConcat(low, high, Before(hash));
  }

  /** Going round from the split point, or from the start when nothing is past the hash, meets the
      nodes in clockwise order. */
  lemma ClockwiseIsRotation(ring: Ring, hash: nat, p: nat)
    requires Splits(ring, hash, p)
    ensures Clockwise(ring, hash) == Rotate(ring, p)
    ensures p == |ring| ==> Clockwise(ring, hash) == Rotate(ring, 0)
  {
    KeepSplit(ring, hash, p);
    if p == |ring| {
      assert Rotate(ring, p) == ring == Rotate(ring, 0);
    }
  }

  lemma OnceAround(k: nat, n: nat)
    requires k < n + n
    ensures k % n == if k < n then k else k - n
  {
  }

  lemma RotateAt(ring: Ring, p: nat, i: nat)
    requires p < |ring| && i < |ring|
    ensures Rotate(ring, p)[i] == ring[(p + i) % |ring|]
  {
    OnceAround(p + i, |ring|);
  }
}
