/** Where the virtual nodes of the two hash-ring balancers lie. A ring holds, for each registered
    backend, the hashes of that backend's numbered names and nothing else, and all its positions are
    different exactly when the hash tells those names apart. */
module RingSpread {
  import opened Collections
  import opened Decimal
  import opened HashRing
  import opened RingBalancers

  /** How many virtual nodes each registered backend has. */
  type Counts = map<string, nat>

  ghost function PartsOf(hash: string -> nat, sep: char, counts: Counts): map<string, Ring> {
    map id | id in counts :: VirtualNodes(hash, id, sep, counts[id])
  }

  function Name(id: string, sep: char, i: nat): string {
    id + [sep] + Numeral(i)
  }

  /** The name is one of a registered backend's numbered names. */
  ghost predicate Registered(name: string, sep: char, counts: Counts) {
    exists id, i: nat :: id in counts && i < counts[id] && name == Name(id, sep, i)
  }

  /** The hash tells the names in use apart. */
  ghost predicate Separates(hash: string -> nat, sep: char, counts: Counts) {
    forall a, b :: Registered(a, sep, counts) && Registered(b, sep, counts) && a != b ==> hash(a) != hash(b)
  }

  ghost predicate AllApart(ring: Ring) {
    forall i, j :: 0 <= i < j < |ring| ==> ring[i].hash != ring[j].hash
  }

  // ---------- what a ring holds ----------

  lemma NodeOfName(hash: string -> nat, id: string, sep: char, count: nat, n: Node)
    ensures n in VirtualNodes(hash, id, sep, count) <==>
            n.backend == id && exists i: nat :: i < count && n.hash == hash(Name(id, sep, i))
  {
    var nodes := VirtualNodes(hash, id, sep, count);
    if i: nat :| i < count && n.hash == hash(Name(id, sep, i)) && n.backend == id {
      assert nodes[i] == n;
    }
    if n in nodes {
      var i :| 0 <= i < |nodes| && nodes[i] == n;
      assert n.hash == hash(Name(id, sep, i));
    }
  }

  /** A ring holds exactly the hashes of its backends' numbered names. */
  lemma NodesExactly(ring: Ring, hash: string -> nat, sep: char, counts: Counts, n: Node)
    requires IsRingOf(ring, PartsOf(hash, sep, counts))
    ensures n in ring <==>
            n.backend in counts && exists i: nat :: i < counts[n.backend] && n.hash == hash(Name(n.backend, sep, i))
  {
    assert n in ring <==> multiset(ring)[n] > 0;
    assert multiset(ring)[n] == CountIn(PartsOf(hash, sep, counts), n);
    if n.backend in counts {
      NodeOfName(hash, n.backend, sep, counts[n.backend], n);
    }
  }

  // ---------- how often ----------

  /** Different numbers give a backend different positions. */
  ghost predicate NumbersApart(hash: string -> nat, id: string, sep: char, count: nat) {
    forall i: nat, j: nat :: i < j < count ==> hash(Name(id, sep, i)) != hash(Name(id, sep, j))
  }

  lemma TwiceClashes(hash: string -> nat, id: string, sep: char, count: nat, n: Node) returns (i: nat, j: nat)
    requires multiset(VirtualNodes(hash, id, sep, count))[n] >= 2
    ensures i < j < count && hash(Name(id, sep, i)) == hash(Name(id, sep, j))
  {
    i, j := TwoPlaces(VirtualNodes(hash, id, sep, count), n);
  }

  lemma OnceEach(hash: string -> nat, id: string, sep: char, count: nat, n: Node)
    requires NumbersApart(hash, id, sep, count)
    ensures multiset(VirtualNodes(hash, id, sep, count))[n] <= 1
  {
    if multiset(VirtualNodes(hash, id, sep, count))[n] >= 2 {
      var i, j := TwiceClashes(hash, id, sep, count, n);
    }
  }

  lemma SeparatedNumbers(hash: string -> nat, sep: char, counts: Counts, id: string)
    requires !IsDigit(sep) && Separates(hash, sep, counts) && id in counts
    ensures NumbersApart(hash, id, sep, counts[id])
  {
    forall i: nat, j: nat | i < j < counts[id] ensures hash(Name(id, sep, i)) != hash(Name(id, sep, j)) {
      VirtualNamesDistinct(id, id, sep, i, j);
      assert Registered(Name(id, sep, i), sep, counts) && Registered(Name(id, sep, j), sep, counts);
    }
  }

  lemma SeparatedNodes(ring: Ring, hash: string -> nat, sep: char, counts: Counts, m: Node, n: Node)
    requires IsRingOf(ring, PartsOf(hash, sep, counts)) && Separates(hash, sep, counts)
    requires m in ring && n in ring && m.hash == n.hash && !IsDigit(sep)
    ensures m == n
  {
    NodesExactly(ring, hash, sep, counts, m);
    NodesExactly(ring, hash, sep, counts, n);
    var i: nat :| i < counts[m.backend] && m.hash == hash(Name(m.backend, sep, i));
    var j: nat :| j < counts[n.backend] && n.hash == hash(Name(n.backend, sep, j));
    assert Registered(Name(m.backend, sep, i), sep, counts) && Registered(Name(n.backend, sep, j), sep, counts);
    if m.backend != n.backend {
      VirtualNamesDistinct(m.backend, n.backend, sep, i, j);
    }
  }

  lemma SeparatedApart(ring: Ring, hash: string -> nat, sep: char, counts: Counts)
    requires IsRingOf(ring, PartsOf(hash, sep, counts)) && Separates(hash, sep, counts) && !IsDigit(sep)
    ensures AllApart(ring)
  {
    forall i, j | 0 <= i < j < |ring| ensures ring[i].hash != ring[j].hash {
      if ring[i].hash == ring[j].hash {
        var n := ring[i];
        SeparatedNodes(ring, hash, sep, counts, n, ring[j]);
        TwiceCounted(ring, i, j);
        assert multiset(ring)[n] == CountIn(PartsOf(hash, sep, counts), n);
        SeparatedNumbers(hash, sep, counts, n.backend);
        OnceEach(hash, n.backend, sep, counts[n.backend], n);
      }
    }
  }

  /** Two names of one hash are two nodes at one position. */
  lemma ClashShows(ring: Ring, hash: string -> nat, sep: char, counts: Counts,
                   id: string, i: nat, other: string, j: nat)
    requires IsRingOf(ring, PartsOf(hash, sep, counts))
    requires id in counts && i < counts[id] && other in counts && j < counts[other]
    requires (id, i) != (other, j) && hash(Name(id, sep, i)) == hash(Name(other, sep, j))
    ensures !AllApart(ring)
  {
    var m, n := Node(hash(Name(id, sep, i)), id), Node(hash(Name(other, sep, j)), other);
    if id == other {
      var nodes := VirtualNodes(hash, id, sep, counts[id]);
      assert nodes[i] == nodes[j] == n;
      TwiceCounted(nodes, if i < j then i else j, if i < j then j else i);
      assert multiset(ring)[n] == CountIn(PartsOf(hash, sep, counts), n);
      var k, l := TwoPlaces(ring, n);
    } else {
      NodesExactly(ring, hash, sep, counts, m);
      NodesExactly(ring, hash, sep, counts, n);
      var k :| 0 <= k < |ring| && ring[k] == m;
      var l :| 0 <= l < |ring| && ring[l] == n;
      assert k < l || l < k;
    }
  }

  /** All positions of a ring are different exactly when the hash tells its backends' names apart. */
  lemma SpreadExactly(ring: Ring, hash: string -> nat, sep: char, counts: Counts)
    requires IsRingOf(ring, PartsOf(hash, sep, counts)) && !IsDigit(sep)
    ensures AllApart(ring) <==> Separates(hash, sep, counts)
  {
    if Separates(hash, sep, counts) {
      SeparatedApart(ring, hash, sep, counts);
    } else {
      var a, b :| Registered(a, sep, counts) && Registered(b, sep, counts) && a != b && hash(a) == hash(b);
      var id, i: nat :| id in counts && i < counts[id] && a == Name(id, sep, i);
      var other, j: nat :| other in counts && j < counts[other] && b == Name(other, sep, j);
      ClashShows(ring, hash, sep, counts, id, i, other, j);
    }
  }

  /** Then no two backends share a position either, so that every ring of these backends is the same. */
  lemma ApartShareNothing(ring: Ring)
    requires AllApart(ring)
    ensures NoSharedPosition(ring)
  {
    forall m, n | m in ring && n in ring && m.hash == n.hash ensures m == n {
      var i :| 0 <= i < |ring| && ring[i] == m;
      var j :| 0 <= j < |ring| && ring[j] == n;
      assert i < j || j < i || i == j;
    }
  }

  // ---------- how many ----------

  ghost function Positions(ring: Ring, id: string): set<nat> {
    set n | n in ring && n.backend == id :: n.hash
  }

  ghost function Hashes(hash: string -> nat, id: string, sep: char, count: nat): seq<nat> {
    seq<nat>(count, i requires 0 <= i < count => hash(Name(id, sep, i)))
  }

  lemma HashAmong(hash: string -> nat, id: string, sep: char, count: nat, h: nat)
    ensures h in Hashes(hash, id, sep, count) <==> exists i: nat :: i < count && h == hash(Name(id, sep, i))
  {
    var hashes := Hashes(hash, id, sep, count);
    if i: nat :| i < count && h == hash(Name(id, sep, i)) {
      assert hashes[i] == h;
    }
    if h in hashes {
      var i :| 0 <= i < |hashes| && hashes[i] == h;
    }
  }

  /** A hash that tells the names apart gives each backend as many positions as it has virtual nodes. */
  lemma PositionCount(ring: Ring, hash: string -> nat, sep: char, counts: Counts, id: string)
    requires IsRingOf(ring, PartsOf(hash, sep, counts)) && !IsDigit(sep)
    requires Separates(hash, sep, counts) && id in counts
    ensures |Positions(ring, id)| == counts[id]
  {
    SeparatedNumbers(hash, sep, counts, id);
    var hashes := Hashes(hash, id, sep, counts[id]);
    ElementsCount(hashes);
    forall h ensures h in Positions(ring, id) <==> h in Elements(hashes) {
      NodesExactly(ring, hash, sep, counts, Node(h, id));
      assert h in Positions(ring, id) <==> Node(h, id) in ring;
      HashAmong(hash, id, sep, counts[id], h);
    }
    assert Positions(ring, id) == Elements(hashes);
  }

  // ---------- the two balancers ----------

  ghost function ConsistentCounts(c: ConsistentHash): Counts
    reads c
  {
    map id | id in c.backends :: c.vnodes
  }

  /** In every valid consistent-hash balancer. */
  lemma ConsistentSpread(c: ConsistentHash)
    requires c.Valid()
    ensures forall n :: n in c.nodes <==>
              n.backend in c.backends && exists i: nat :: i < c.vnodes && n.hash == c.hash(Name(n.backend, ':', i))
    ensures AllApart(c.nodes) <==> Separates(c.hash, ':', ConsistentCounts(c))
    ensures AllApart(c.nodes) ==>
              NoSharedPosition(c.nodes) && forall id :: id in c.backends ==> |Positions(c.nodes, id)| == c.vnodes
  {
    var counts := ConsistentCounts(c);
    assert PartsOf(c.hash, ':', counts) == Parts(c.hash, c.backends.Keys, c.vnodes);
    forall n ensures n in c.nodes <==>
              n.backend in c.backends && exists i: nat :: i < c.vnodes && n.hash == c.hash(Name(n.backend, ':', i))
    {
      NodesExactly(c.nodes, c.hash, ':', counts, n);
    }
    SpreadExactly(c.nodes, c.hash, ':', counts);
    if AllApart(c.nodes) {
      ApartShareNothing(c.nodes);
      forall id | id in c.backends ensures |Positions(c.nodes, id)| == c.vnodes {
        PositionCount(c.nodes, c.hash, ':', counts, id);
      }
    }
  }

  /** A backend's virtual nodes are its weight, at least one, times the configured number, up to 10000. */
  ghost function RingCounts(r: RingHash): Counts
    reads r
  {
    map id | id in r.backends :: Min(r.vnodes * (if r.backends[id].weight > 1 then r.backends[id].weight else 1), 10000)
  }

  /** In every valid ring-hash balancer. */
  lemma RingHashSpread(r: RingHash)
    requires r.Valid()
    ensures forall n :: n in r.ring <==>
              && n.backend in r.backends
              && exists i: nat :: i < RingCounts(r)[n.backend] && n.hash == r.hash(Name(n.backend, '#', i))
    ensures AllApart(r.ring) <==> Separates(r.hash, '#', RingCounts(r))
    ensures AllApart(r.ring) ==>
              && NoSharedPosition(r.ring)
              && forall id :: id in r.backends ==> |Positions(r.ring, id)| == RingCounts(r)[id]
  {
    var counts := RingCounts(r);
    assert PartsOf(r.hash, '#', counts) == WeightedParts(r.hash, r.vnodes, r.backends);
    forall n ensures n in r.ring <==>
              && n.backend in r.backends
              && exists i: nat :: i < counts[n.backend] && n.hash == r.hash(Name(n.backend, '#', i))
    {
      NodesExactly(r.ring, r.hash, '#', counts, n);
    }
    SpreadExactly(r.ring, r.hash, '#', counts);
    if AllApart(r.ring) {
      ApartShareNothing(r.ring);
      forall id | id in r.backends ensures |Positions(r.ring, id)| == counts[id] {
        PositionCount(r.ring, r.hash, '#', counts, id);
      }
    }
  }
}
