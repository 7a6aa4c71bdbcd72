/** The Maglev balancer: registered backends, their rows, and the lookup table rebuilt from them.
    The 64-bit FNV-1a hash is a parameter. */
module Maglev {
  import opened Collections
  import Decimal
  import HashRing
  import RingBalancers
  import opened MaglevRows
  import opened MaglevTable

  datatype Backend = Backend(id: string, address: string)

  function Offset(hash: string -> nat, id: string): nat {
    hash(id + "offset") % TABLE_SIZE
  }

  function Skip(hash: string -> nat, id: string): nat {
    var skip := hash(id + "skip") % (TABLE_SIZE - 1);
    if skip == 0 then 1 else skip
  }

  function RowOf(hash: string -> nat, id: string): seq<nat> {
    Row(Offset(hash, id), Skip(hash, id), TABLE_SIZE)
  }

  function RowsOf(hash: string -> nat, backends: seq<Backend>): seq<seq<nat>> {
    seq(|backends|, i requires 0 <= i < |backends| => RowOf(hash, backends[i].id))
  }

  /** A backend's row as section 3.4 of the Maglev paper describes it: it starts at the hash of the
      backend's offset name modulo the number of slots and steps on by the hash of its skip name modulo
      one less, or by one where that is zero. */
  ghost predicate IsRowFor(row: seq<nat>, hash: string -> nat, id: string) {
    var stride := hash(id + "skip") % 65536;
    Strides(row, hash(id + "offset") % 65537, if stride == 0 then 1 else stride, 65537)
  }

  lemma RowOfIsRowFor(hash: string -> nat, id: string)
    ensures IsRowFor(RowOf(hash, id), hash, id)
  {
    RowStrides(Offset(hash, id), Skip(hash, id), TABLE_SIZE);
  }

  ghost predicate AreRowsFor(rows: seq<seq<nat>>, hash: string -> nat, backends: seq<Backend>) {
    |rows| == |backends| && forall i :: 0 <= i < |rows| ==> IsRowFor(rows[i], hash, backends[i].id)
  }

  lemma RowsOfAreRowsFor(hash: string -> nat, backends: seq<Backend>)
    ensures AreRowsFor(RowsOf(hash, backends), hash, backends)
  {
    forall i | 0 <= i < |backends| ensures IsRowFor(RowsOf(hash, backends)[i], hash, backends[i].id) {
      RowOfIsRowFor(hash, backends[i].id);
    }
  }

  /** Whatever the hash values, a backend's row visits each of the 65537 slots exactly once. */
  lemma RowVisitsEverySlotOnce(hash: string -> nat, id: string)
    ensures IsPermutation(RowOf(hash, id), TABLE_SIZE)
  {
    TableSizeIsPrime();
    RowIsPermutation(Offset(hash, id), Skip(hash, id), TABLE_SIZE);
  }

  lemma RowsVisitEverySlotOnce(hash: string -> nat, backends: seq<Backend>)
    ensures RowsOk(RowsOf(hash, backends), TABLE_SIZE)
  {
    forall i | 0 <= i < |backends| ensures IsPermutation(RowsOf(hash, backends)[i], TABLE_SIZE) {
      RowVisitsEverySlotOnce(hash, backends[i].id);
    }
  }

  /** The products behind a row stay far below 2^64, so unsigned arithmetic does not wrap. */
  lemma RowFitsUint64(offset: nat, skip: nat, i: nat)
    requires offset < TABLE_SIZE && skip < TABLE_SIZE && i < TABLE_SIZE
    ensures offset + i * skip <= MAX_UINT64
  {
    assert i * skip <= TABLE_SIZE * TABLE_SIZE by { MulBound(i, skip, TABLE_SIZE); }
  }

  lemma MulBound(a: nat, b: nat, m: nat)
    requires a <= m && b <= m
    ensures a * b <= m * m
  {
    assert m * m == a * b + a * (m - b) + (m - a) * m;
  }

  /** The map takes every identifier to its position in the list, and nothing else. */
  ghost predicate Indexes(index: map<string, nat>, backends: seq<Backend>) {
    && (forall i :: 0 <= i < |backends| ==> backends[i].id in index && index[backends[i].id] == i)
    && (forall id :: id in index ==> index[id] < |backends| && backends[index[id]].id == id)
  }

  ghost predicate DistinctIds(backends: seq<Backend>) {
    forall i, j :: 0 <= i < j < |backends| ==> backends[i].id != backends[j].id
  }

  function Without(backends: seq<Backend>, idx: nat): seq<Backend>
    requires idx < |backends|
  {
    backends[..idx] + backends[idx + 1..]
  }

  lemma RemovedIds(index: map<string, nat>, backends: seq<Backend>, id: string)
    requires Indexes(index, backends) && id in index
    ensures var rest := Without(backends, index[id]);
            && DistinctIds(rest)
            && (forall d :: d in index && d != id ==> exists k :: 0 <= k < |rest| && rest[k].id == d)
            && (forall k :: 0 <= k < |rest| ==> rest[k].id in index && rest[k].id != id)
  {
    var idx := index[id];
    var rest := Without(backends, idx);
    forall d | d in index && d != id ensures exists k :: 0 <= k < |rest| && rest[k].id == d {
      var was := index[d];
      var k := if was < idx then was else was - 1;
      assert rest[k] == backends[was];
    }
  }

  lemma RowsWithout(hash: string -> nat, backends: seq<Backend>, idx: nat)
    requires idx < |backends|
    ensures var rows := RowsOf(hash, backends);
            RowsOf(hash, Without(backends, idx)) == rows[..idx] + rows[idx + 1..]
  {
  }

  /** The loop that renumbers the map after a removal. */
  method Reindex(stale: map<string, nat>, backends: seq<Backend>) returns (index: map<string, nat>)
    requires DistinctIds(backends)
    requires forall d :: d in stale ==> exists k :: 0 <= k < |backends| && backends[k].id == d
    ensures Indexes(index, backends)
  {
    index := stale;
    for i := 0 to |backends|
      invariant forall k :: 0 <= k < i ==> backends[k].id in index && index[backends[k].id] == k
      invariant forall d :: d in index ==> exists k :: 0 <= k < |backends| && backends[k].id == d
    {
      index := index[backends[i].id := i];
    }
  }

  class Balancer {
    const hash: string -> nat
    var backends: seq<Backend>
    var backendMap: map<string, nat>
    const lookupTable: array<int>
    var permutations: seq<seq<nat>>
    var needRebuild: bool
    var counter: nat

    /** Positions and rows follow the list, and a table not marked stale is the one its rows give. */
    ghost predicate Valid()
      reads this, lookupTable
    {
      && lookupTable.Length == TABLE_SIZE
      && Indexes(backendMap, backends)
      && permutations == RowsOf(hash, backends)
      && (!needRebuild && backends != [] ==>
            RowsOk(permutations, TABLE_SIZE) && IsTableFor(permutations, lookupTable[..]))
    }

    /** In every valid state the rows are the paper's, and a table not marked stale is the one table
        that they give. */
    lemma RowsAndTable(table: seq<int>)
      requires Valid() && |table| == TABLE_SIZE
      ensures AreRowsFor(permutations, hash, backends)
      ensures !needRebuild && backends != [] ==> (IsTableFor(permutations, table) <==> lookupTable[..] == table)
    {
      RowsOfAreRowsFor(hash, backends);
      if !needRebuild && backends != [] && IsTableFor(permutations, table) {
        TableUnique(permutations, lookupTable[..], table);
      }
    }

    constructor (fnv: string -> nat)
      ensures Valid() && fresh(lookupTable) && backends == []
    {
      hash := fnv;
      backends, backendMap, permutations, needRebuild, counter := [], map[], [], false, 0;
      lookupTable := new int[TABLE_SIZE](_ => 0);
    }

    method GeneratePermutation(id: string) returns (perm: seq<nat>)
      ensures perm == RowOf(hash, id) && IsRowFor(perm, hash, id)
    {
      var offset := hash(id + "offset") % TABLE_SIZE;
      var skip := hash(id + "skip") % (TABLE_SIZE - 1);
      if skip == 0 {
        skip := 1;
      }
      perm := GenerateRow(offset, skip);
      RowOfIsRowFor(hash, id);
    }

    method GenerateRow(offset: nat, skip: nat) returns (perm: seq<nat>)
      requires offset < TABLE_SIZE && skip < TABLE_SIZE
      ensures perm == Row(offset, skip, TABLE_SIZE)
    {
      perm := [];
      for i := 0 to TABLE_SIZE
        invariant |perm| == i
        invariant forall k :: 0 <= k < i ==> perm[k] == RowAt(offset, skip, TABLE_SIZE, k)
      {
        RowFitsUint64(offset, skip, i);
        perm := perm + [(offset + i * skip) % TABLE_SIZE];
      }
    }

    method Add(b: Backend)
      requires Valid()
      modifies this
      ensures Valid() && needRebuild
      ensures backends == if b.id in old(backendMap) then old(backends)[old(backendMap)[b.id] := b]
                          else old(backends) + [b]
    {
      if b.id in backendMap {
        backends := backends[backendMap[b.id] := b];
      } else {
        backendMap := backendMap[b.id := |backends|];
        backends := backends + [b];
        var perm := GeneratePermutation(b.id);
        permutations := permutations + [perm];
      }
      needRebuild := true;
    }

    method Remove(id: string)
      requires Valid()
      modifies this
      ensures Valid()
      ensures id !in old(backendMap) ==> backends == old(backends) && needRebuild == old(needRebuild)
      ensures id in old(backendMap) ==>
                needRebuild && backends == Without(old(backends), old(backendMap)[id])
    {
      if id !in backendMap {
        return;
      }
      var idx := backendMap[id];
      RemovedIds(backendMap, backends, id);
      RowsWithout(hash, backends, idx);
      backends := backends[..idx] + backends[idx + 1..];
      permutations := permutations[..idx] + permutations[idx + 1..];
      backendMap := Reindex(backendMap - {id}, backends);
      needRebuild := true;
    }

    method GeneratePermutations() returns (rows: seq<seq<nat>>)
      ensures rows == RowsOf(hash, backends)
    {
      rows := [];
      for i := 0 to |backends|
        invariant rows == RowsOf(hash, backends[..i])
      {
        var perm := GeneratePermutation(backends[i].id);
        rows := rows + [perm];
      }
      assert backends[..|backends|] == backends;
    }

    /** After a rebuild the table is complete: every slot names a registered backend, the table is
        a function of the backends' rows alone, and the cursors moved at most once per row and slot. */
    method Rebuild() returns (advances: nat)
      requires Valid()
      modifies this`permutations, this`needRebuild, lookupTable
      ensures Valid() && !needRebuild
      ensures old(needRebuild) && backends != [] ==>
                forall s :: 0 <= s < TABLE_SIZE ==> 0 <= lookupTable[s] < |backends|
      ensures old(needRebuild) && backends == [] ==>
                forall s :: 0 <= s < TABLE_SIZE ==> lookupTable[s] == EMPTY
      ensures advances <= |backends| * TABLE_SIZE
    {
      advances := 0;
      if !needRebuild {
        return;
      }
      if |backends| == 0 {
        ClearTable(lookupTable);
        assert forall s :: 0 <= s < TABLE_SIZE ==> lookupTable[s] == lookupTable[..][s];
        needRebuild := false;
        return;
      }
      permutations := GeneratePermutations();
      RowsVisitEverySlotOnce(hash, backends);
      advances := FillTable(permutations, lookupTable);
      FullTable(permutations, lookupTable[..]);
      assert forall s :: 0 <= s < TABLE_SIZE ==> lookupTable[s] == lookupTable[..][s];
      needRebuild := false;
    }

    /** The backend for a request: the first available one among the table's slots from the key's slot
        on. A complete table has no slot without a backend, so the guards for such slots never act. */
    method Next(clientIP: string, list: seq<RingBalancers.Backend>)
      returns (r: Option<RingBalancers.Backend>, ghost key: string)
      requires Valid()
      modifies this`permutations, this`needRebuild, this`counter, lookupTable
      ensures Valid()
      ensures backends == [] || list == [] ==> r.None?
      ensures backends != [] && list != [] ==>
                && !needRebuild && TableNames(lookupTable[..], backends)
                && key == (if clientIP != "" then clientIP else "request-" + Decimal.Numeral(old(counter) + 1))
                && RingBalancers.IdOf(r) ==
                   HashRing.Lookup(TableRing(lookupTable[..], backends), hash(key) % TABLE_SIZE,
                                   RingBalancers.AvailableIds(list))
      ensures r.Some? ==> r.value in list && r.value.id in RingBalancers.AvailableIds(list)
      ensures counter == old(counter) + if clientIP == "" && backends != [] && list != [] then 1 else 0
    {
      key := clientIP;
      if |backends| == 0 || |list| == 0 {
        return None, key;
      }
      var _ := Rebuild();
      FullTable(permutations, lookupTable[..]);
      var k := RequestKey(clientIP);
      key := k;
      r := FindInTable(lookupTable, backends, hash(k) % TABLE_SIZE, list);
    }

    method RequestKey(clientIP: string) returns (key: string)
      modifies this`counter
      ensures key == if clientIP != "" then clientIP else "request-" + Decimal.Numeral(counter)
      ensures counter == old(counter) + if clientIP == "" then 1 else 0
    {
      key := clientIP;
      if key == "" {
        counter := counter + 1;
        key := "request-" + Decimal.Numeral(counter);
      }
    }
  }

  // ---------- lookup ----------

  ghost predicate TableNames(table: seq<int>, backends: seq<Backend>) {
    forall s :: 0 <= s < |table| ==> 0 <= table[s] < |backends|
  }

  /** The table seen as a ring: one node per slot, at the slot's number. */
  ghost function TableRing(table: seq<int>, backends: seq<Backend>): HashRing.Ring
    requires TableNames(table, backends)
  {
    seq(|table|, s requires 0 <= s < |table| => HashRing.Node(s, backends[table[s]].id))
  }

  lemma FromSlot(table: seq<int>, backends: seq<Backend>, pos: nat)
    requires TableNames(table, backends) && pos < |table|
    ensures var ring := TableRing(table, backends);
            HashRing.Clockwise(ring, pos) == HashRing.Rotate(ring, pos)
  {
    HashRing.ClockwiseIsRotation(TableRing(table, backends), pos, pos);
  }

  method FindInTable(table: array<int>, backends: seq<Backend>, pos: nat, list: seq<RingBalancers.Backend>)
    returns (r: Option<RingBalancers.Backend>)
    requires TableNames(table[..], backends) && pos < table.Length
    ensures RingBalancers.IdOf(r) ==
            HashRing.Lookup(TableRing(table[..], backends), pos, RingBalancers.AvailableIds(list))
    ensures r.Some? ==> r.value in list && r.value.id in RingBalancers.AvailableIds(list)
  {
    ghost var ring := TableRing(table[..], backends);
    FromSlot(table[..], backends, pos);
    var id := backends[table[pos]].id;
    r := RingBalancers.FindAvailable(list, id);
    if r.Some? {
      RingBalancers.OwnerIsFirst(ring, pos, RingBalancers.AvailableIds(list));
      return;
    }
    var available := RingBalancers.GatherAvailable(list);
    if |available| == 0 {
      assert available.Keys == {};
      RingBalancers.NoneAvailable(HashRing.Clockwise(ring, pos));
      return None;
    }
    var found := WalkTable(table, backends, pos, available.Keys);
    RingBalancers.WalkFinds(HashRing.Rotate(ring, pos), available.Keys);
    if found.None? {
      return None;
    }
    assert available[found.value] in list;
    r := RingBalancers.FindListed(list, found.value);
  }

  method WalkTable(table: array<int>, backends: seq<Backend>, pos: nat, available: set<string>)
    returns (r: Option<string>)
    requires TableNames(table[..], backends) && pos < table.Length
    ensures r == HashRing.FirstAvailable(HashRing.Rotate(TableRing(table[..], backends), pos), available)
  {
    ghost var ring := TableRing(table[..], backends);
    ghost var round := HashRing.Rotate(ring, pos);
    for i := 0 to table.Length
      invariant HashRing.FirstAvailable(round, available) == HashRing.FirstAvailable(round[i..], available)
    {
      HashRing.RotateAt(ring, pos, i);
      var slot := (pos + i) % table.Length;
      assert table[slot] == table[..][slot];
      var id := backends[table[slot]].id;
      assert round[i] == HashRing.Node(slot, id);
      if id in available {
        return Some(id);
      }
      assert round[i..][1..] == round[i + 1..];
    }
    r := None;
  }

  /** Taking a backend that a key was not sent to off the request's list changes nothing for the key. */
  lemma UnlistedKeeps(table: seq<int>, backends: seq<Backend>, pos: nat,
                      list: seq<RingBalancers.Backend>, shorter: seq<RingBalancers.Backend>, id: string)
    requires TableNames(table, backends) && pos < |table|
    requires forall b :: b in shorter <==> b in list && b.id != id
    requires HashRing.Lookup(TableRing(table, backends), pos, RingBalancers.AvailableIds(list)) != Some(id)
    ensures HashRing.Lookup(TableRing(table, backends), pos, RingBalancers.AvailableIds(shorter))
            == HashRing.Lookup(TableRing(table, backends), pos, RingBalancers.AvailableIds(list))
  {
    var all, fewer := RingBalancers.AvailableIds(list), RingBalancers.AvailableIds(shorter);
    assert fewer == all - {id};
    HashRing.UnselectedDropKeeps(TableRing(table, backends), pos, id, all);
  }
}
