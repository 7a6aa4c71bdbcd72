/** The snapshot directory: one file per index, named so that names sort as numbers, of which only the
    newest few are kept. */
module SnapshotStore {
  import opened Collections
  import opened Decimal
  import opened Lexicographic

  type Index = i: nat | i < 0x1_0000_0000_0000_0000

  datatype Snapshot = Snapshot(index: Index, term: nat, data: seq<bv8>, metadata: map<string, string>)
  datatype Meta = Meta(index: Index, term: nat, size: nat, at: int, metadata: map<string, string>)

  // ---------- names ----------

  function Name(i: Index, ext: string): string {
    "snapshot-" + Pad(i, 20) + ext
  }

  lemma TwentyDigitsAreEnough()
    ensures Power10(20) > 0x1_0000_0000_0000_0000
  {
    assert Power10(5) == 100_000;
    assert Power10(10) == 10_000_000_000;
    assert Power10(15) == 1_000_000_000_000_000;
    assert Power10(20) == 100_000_000_000_000_000_000;
  }

  lemma SameMiddle(before: string, a: string, b: string, after: string)
    requires |a| == |b| && before + (a + after) == before + (b + after)
    ensures a == b
  {
    forall k | 0 <= k < |a| ensures a[k] == b[k] {
      assert a[k] == (before + (a + after))[|before| + k];
    }
  }

  /** Names sort exactly as their indices do. */
  lemma NameOrder(i: Index, j: Index, ext: string)
    ensures Less(Name(i, ext), Name(j, ext)) <==> i < j
    ensures Name(i, ext) == Name(j, ext) <==> i == j
  {
    TwentyDigitsAreEnough();
    var a, b := Pad(i, 20), Pad(j, 20);
    PadOrder(i, j, 20);
    PadInjective(i, j, 20);
    assert Name(i, ext) == "snapshot-" + (a + ext) && Name(j, ext) == "snapshot-" + (b + ext);
    LessPrefix("snapshot-", a + ext, b + ext);
    LessSuffix(a, b, ext);
    if Name(i, ext) == Name(j, ext) {
      SameMiddle("snapshot-", a, b, ext);
    }
  }

  // ---------- sorted listings ----------

  predicate Ascending(names: seq<string>) {
    forall i, j :: 0 <= i < j < |names| ==> Less(names[i], names[j])
  }

  predicate Increasing(ids: seq<Index>) {
    forall i, j :: 0 <= i < j < |ids| ==> ids[i] < ids[j]
  }

  ghost predicate SameElements(a: seq<string>, b: seq<string>) {
    forall n :: n in a <==> n in b
  }

  lemma LastIsLargest(a: seq<string>, n: string)
    requires Ascending(a) && a != [] && n in a
    ensures n == a[|a| - 1] || Less(n, a[|a| - 1])
  {
    var i :| 0 <= i < |a| && a[i] == n;
  }

  lemma LastsEqual(a: seq<string>, b: seq<string>)
    requires Ascending(a) && Ascending(b) && SameElements(a, b) && a != [] && b != []
    ensures a[|a| - 1] == b[|b| - 1]
  {
    var x, y := a[|a| - 1], b[|b| - 1];
    assert x in a && y in b;
    LastIsLargest(b, x);
    LastIsLargest(a, y);
    if Less(x, y) {
      LessAsymmetric(x, y);
    }
  }

  lemma DropLast(a: seq<string>, n: string)
    requires Ascending(a) && a != []
    ensures n in a[..|a| - 1] <==> n in a && n != a[|a| - 1]
  {
    var last := a[|a| - 1];
    LessIrreflexive(last);
    if n in a && n != last {
      var i :| 0 <= i < |a| && a[i] == n;
      assert a[..|a| - 1][i] == n;
    }
  }

  lemma FirstListed(a: seq<string>)
    ensures a != [] ==> a[0] in a
  {
  }

  /** A sorted listing is determined by what it lists. */
  lemma {:induction false} ListingUnique(a: seq<string>, b: seq<string>)
    requires Ascending(a) && Ascending(b) && SameElements(a, b)
    ensures a == b
    decreases |a|
  {
    FirstListed(a);
    FirstListed(b);
    if a == [] || b == [] {
    } else {
      LastsEqual(a, b);
      var ra, rb := a[..|a| - 1], b[..|b| - 1];
      forall n ensures n in ra <==> n in rb {
        DropLast(a, n);
        DropLast(b, n);
      }
      ListingUnique(ra, rb);
      assert a == ra + [a[|a| - 1]] && b == rb + [b[|b| - 1]];
    }
  }

  /** The place of a name in a sorted listing. */
  method FindPlace(names: seq<string>, name: string) returns (k: nat)
    requires Ascending(names)
    ensures k <= |names|
    ensures forall i :: 0 <= i < k ==> Less(names[i], name)
    ensures forall i :: k <= i < |names| ==> !Less(names[i], name)
  {
    k := 0;
    while k < |names| && Less(names[k], name)
      invariant k <= |names|
      invariant forall i :: 0 <= i < k ==> Less(names[i], name)
    {
      k := k + 1;
    }
    if k < |names| {
      forall i | k < i < |names| ensures !Less(names[i], name) {
        if Less(names[i], name) {
          LessTransitive(names[k], names[i], name);
        }
      }
    }
  }

  lemma InsertedAscending(names: seq<string>, k: nat, name: string)
    requires Ascending(names) && k <= |names| && name !in names
    requires forall i :: 0 <= i < k ==> Less(names[i], name)
    requires forall i :: k <= i < |names| ==> !Less(names[i], name)
    ensures Ascending(names[..k] + [name] + names[k..])
  {
    var r := names[..k] + [name] + names[k..];
    forall i | k <= i < |names| ensures Less(name, names[i]) {
      assert names[i] in names;
      LessTotal(name, names[i]);
    }
    assert forall i :: 0 <= i < k ==> r[i] == names[i];
    assert r[k] == name;
    assert forall i :: k < i < |r| ==> r[i] == names[i - 1];
  }

  /** Globbing and sorting: the names of the directory in ascending order. */
  method ListFiles<V>(dir: map<string, V>) returns (files: seq<string>)
    ensures Ascending(files) && forall n :: n in files <==> n in dir
  {
    files := [];
    var todo := dir.Keys;
    while todo != {}
      invariant Ascending(files) && todo <= dir.Keys
      invariant forall n :: n in files <==> n in dir && n !in todo
      decreases |todo|
    {
      var name :| name in todo;
      todo := todo - {name};
      var k := FindPlace(files, name);
      InsertedAscending(files, k, name);
      ghost var before := files;
      assert before == before[..k] + before[k..];
      files := files[..k] + [name] + files[k..];
    }
  }

  // ---------- the indices ever saved ----------

  /** Where an index belongs among the first n of a list. */
  function Place(ids: seq<Index>, n: nat, i: Index): (p: nat)
    requires n <= |ids|
    ensures p <= n
  {
    if n == 0 then 0 else if ids[n - 1] < i then n else Place(ids, n - 1, i)
  }

  lemma {:induction false} PlaceSeparates(ids: seq<Index>, n: nat, i: Index)
    requires n <= |ids| && Increasing(ids)
    ensures forall k :: 0 <= k < Place(ids, n, i) ==> ids[k] < i
    ensures forall k :: Place(ids, n, i) <= k < n ==> ids[k] >= i
  {
    if n == 0 || ids[n - 1] < i {
    } else {
      PlaceSeparates(ids, n - 1, i);
    }
  }

  /** The ordered list of indices with one more in it. */
  function Insert(ids: seq<Index>, i: Index): seq<Index> {
    var p := Place(ids, |ids|, i);
    if p < |ids| && ids[p] == i then ids else ids[..p] + [i] + ids[p..]
  }

  lemma InsertMembers(ids: seq<Index>, i: Index, x: Index)
    ensures x in Insert(ids, i) <==> x == i || x in ids
  {
    var p := Place(ids, |ids|, i);
    assert ids == ids[..p] + ids[p..];
  }

  lemma InsertLength(ids: seq<Index>, i: Index)
    requires Increasing(ids)
    ensures |Insert(ids, i)| == if i in ids then |ids| else |ids| + 1
    ensures i in ids ==> Insert(ids, i) == ids
  {
    PlaceSeparates(ids, |ids|, i);
  }

  lemma InsertIncreasing(ids: seq<Index>, i: Index)
    requires Increasing(ids)
    ensures Increasing(Insert(ids, i))
  {
    PlaceSeparates(ids, |ids|, i);
    var p, r := Place(ids, |ids|, i), Insert(ids, i);
    if r != ids {
      assert forall k :: 0 <= k < p ==> r[k] == ids[k];
      assert r[p] == i;
      assert forall k :: p < k < |r| ==> r[k] == ids[k - 1];
    }
  }

  /** The indices kept are the newest few of all that were ever saved: whatever is not kept is older
      than everything kept, and then there is no room to spare. */
  ghost predicate Newest(kept: seq<Index>, ever: set<Index>, retain: nat) {
    && Increasing(kept) && |kept| <= retain
    && (forall k :: 0 <= k < |kept| ==> kept[k] in ever)
    && (forall i :: i in ever && i !in kept ==> |kept| == retain && OlderThan(i, kept))
  }

  ghost predicate OlderThan(i: Index, kept: seq<Index>) {
    forall k :: 0 <= k < |kept| ==> i < kept[k]
  }

  lemma NotFewer(a: seq<Index>, b: seq<Index>, i: Index)
    requires Increasing(a) && Increasing(b)
    requires i in a && i !in b && forall k :: 0 <= k < |b| ==> b[k] in a
    ensures |a| > |b|
  {
    ElementsCount(a);
    ElementsCount(b);
    var some := Elements(b) + {i};
    assert Elements(a) == some + (Elements(a) - some);
  }

  lemma LastOf(ids: seq<Index>, i: Index)
    requires Increasing(ids) && ids != [] && i in ids
    ensures i <= ids[|ids| - 1]
    ensures i in ids[..|ids| - 1] <==> i != ids[|ids| - 1]
  {
    var k :| 0 <= k < |ids| && ids[k] == i;
    assert k < |ids| - 1 ==> ids[..|ids| - 1][k] == i;
  }

  lemma NotOlder(x: Index, a: seq<Index>, i: Index)
    requires i in a && i < x
    ensures !OlderThan(x, a)
  {
    var j :| 0 <= j < |a| && a[j] == i;
  }

  lemma NewestContains(a: seq<Index>, b: seq<Index>, ever: set<Index>, retain: nat, i: Index)
    requires Newest(a, ever, retain) && Newest(b, ever, retain) && i in a
    ensures i in b
  {
    if i !in b {
      // b is then full of newer indices, all of which a holds as well
      forall k | 0 <= k < |b| ensures b[k] in a {
        assert OlderThan(i, b);
        NotOlder(b[k], a, i);
      }
      NotFewer(a, b, i);
    }
  }

  /** There is only one such list. */
  lemma NewestUnique(a: seq<Index>, b: seq<Index>, ever: set<Index>, retain: nat)
    requires Newest(a, ever, retain) && Newest(b, ever, retain)
    ensures a == b
  {
    forall i ensures i in a <==> i in b {
      if i in a {
        NewestContains(a, b, ever, retain, i);
      }
      if i in b {
        NewestContains(b, a, ever, retain, i);
      }
    }
    SameIndices(a, b);
  }

  lemma {:induction false} SameIndices(a: seq<Index>, b: seq<Index>)
    requires Increasing(a) && Increasing(b) && forall i :: i in a <==> i in b
    ensures a == b
    decreases |a|
  {
    assert Elements(a) == Elements(b);
    ElementsCount(a);
    ElementsCount(b);
    if a == [] {
    } else {
      var ra, rb, x, y := a[..|a| - 1], b[..|b| - 1], a[|a| - 1], b[|b| - 1];
      assert x in a && y in b;
      LastOf(a, y);
      LastOf(b, x);
      forall i ensures i in ra <==> i in rb {
        if i in a {
          LastOf(a, i);
          LastOf(b, i);
        }
      }
      SameIndices(ra, rb);
      assert a == ra + [x] && b == rb + [y];
    }
  }

  function Trimmed(ids: seq<Index>, retain: nat): seq<Index> {
    if |ids| <= retain then ids else ids[|ids| - retain..]
  }

  lemma DroppedOlder(kept: seq<Index>, i: Index, j: Index, after: seq<Index>)
    requires Increasing(kept) && i !in kept && kept != [] && after == Insert(kept, i)[1..]
    requires j !in after && (j == i || j in kept || OlderThan(j, kept))
    ensures OlderThan(j, after)
  {
    var more := Insert(kept, i);
    InsertIncreasing(kept, i);
    InsertLength(kept, i);
    InsertMembers(kept, i, j);
    InsertMembers(kept, i, more[0]);
    assert more == [more[0]] + after;
    if j !in more && more[0] == i {
      forall k | 0 <= k < |after| ensures j < after[k] {
        InsertMembers(kept, i, more[k + 1]);
      }
    }
  }

  /** After a save and a trim the newest are kept again: what was trimmed earlier never comes back. */
  lemma NewestKept(kept: seq<Index>, ever: set<Index>, retain: nat, i: Index)
    requires Newest(kept, ever, retain) && retain >= 1
    ensures Newest(Trimmed(Insert(kept, i), retain), ever + {i}, retain)
  {
    var more, all := Insert(kept, i), ever + {i};
    var after := Trimmed(more, retain);
    InsertIncreasing(kept, i);
    InsertLength(kept, i);
    forall k | 0 <= k < |after| ensures after[k] in all {
      InsertMembers(kept, i, after[k]);
    }
    forall j | j in all && j !in after ensures |after| == retain && OlderThan(j, after) {
      InsertMembers(kept, i, j);
      if i !in kept && |kept| == retain {
        DroppedOlder(kept, i, j, after);
      }
    }
  }

  /** The last index kept is the largest ever saved. */
  lemma LastIsNewest(kept: seq<Index>, ever: set<Index>, retain: nat, i: Index)
    requires Newest(kept, ever, retain) && retain >= 1 && i in ever
    ensures kept != [] && i <= kept[|kept| - 1]
  {
    if i in kept {
      LastOf(kept, i);
    } else {
      assert OlderThan(i, kept);
    }
  }

  // ---------- what the directory holds ----------

  ghost predicate HoldsAt<V>(dir: map<string, V>, i: Index, contents: map<Index, V>, ext: string) {
    i in contents && Name(i, ext) in dir && dir[Name(i, ext)] == contents[i]
  }

  /** The directory holds exactly the files of these indices, each with the given contents. */
  ghost predicate Holds<V>(dir: map<string, V>, ids: seq<Index>, contents: map<Index, V>, ext: string) {
    && Increasing(ids) && |dir| == |ids|
    && forall k :: 0 <= k < |ids| ==> HoldsAt(dir, ids[k], contents, ext)
  }

  /** A list of file names, index by index. */
  ghost predicate Lists(files: seq<string>, ids: seq<Index>, ext: string) {
    |files| == |ids| && forall k :: 0 <= k < |ids| ==> files[k] == Name(ids[k], ext)
  }

  /** A directory's names are exactly those of its indices. */
  lemma NamesOf<V>(dir: map<string, V>, ids: seq<Index>, contents: map<Index, V>, ext: string)
    returns (names: seq<string>)
    requires Holds(dir, ids, contents, ext)
    ensures Lists(names, ids, ext) && Ascending(names) && forall n :: n in names <==> n in dir
  {
    names := seq(|ids|, k requires 0 <= k < |ids| => Name(ids[k], ext));
    forall i, j | 0 <= i < j < |ids| ensures Less(names[i], names[j]) && names[i] != names[j] {
      NameOrder(ids[i], ids[j], ext);
    }
    ElementsCount(names);
    forall n | n in names ensures n in dir {
      var k :| 0 <= k < |ids| && names[k] == n;
      assert HoldsAt(dir, ids[k], contents, ext);
    }
    SubsetSize(Elements(names), dir.Keys);
    assert forall n :: n in names <==> n in Elements(names);
  }

  /** The sorted listing of a directory is the listing of its indices. */
  lemma ListingIs<V>(dir: map<string, V>, ids: seq<Index>, contents: map<Index, V>, ext: string, files: seq<string>)
    requires Holds(dir, ids, contents, ext) && Ascending(files) && forall n :: n in files <==> n in dir
    ensures Lists(files, ids, ext)
  {
    var names := NamesOf(dir, ids, contents, ext);
    ListingUnique(files, names);
  }

  lemma NewName<V>(dir: map<string, V>, ids: seq<Index>, contents: map<Index, V>, ext: string, i: Index)
    requires Holds(dir, ids, contents, ext)
    ensures Name(i, ext) in dir <==> i in ids
  {
    var names := NamesOf(dir, ids, contents, ext);
    if Name(i, ext) in dir {
      var k :| 0 <= k < |ids| && names[k] == Name(i, ext);
      NameOrder(ids[k], i, ext);
    }
    if i in ids {
      var k :| 0 <= k < |ids| && ids[k] == i;
      assert HoldsAt(dir, ids[k], contents, ext);
    }
  }

  lemma WriteHolds<V>(dir: map<string, V>, ids: seq<Index>, contents: map<Index, V>, ext: string, i: Index, v: V)
    requires Holds(dir, ids, contents, ext)
    ensures Holds(dir[Name(i, ext) := v], Insert(ids, i), contents[i := v], ext)
  {
    var after, all, more := dir[Name(i, ext) := v], contents[i := v], Insert(ids, i);
    InsertIncreasing(ids, i);
    InsertLength(ids, i);
    NewName(dir, ids, contents, ext, i);
    assert after.Keys == dir.Keys + {Name(i, ext)};
    forall k | 0 <= k < |more| ensures HoldsAt(after, more[k], all, ext) {
      InsertMembers(ids, i, more[k]);
      NameOrder(more[k], i, ext);
      if more[k] != i {
        var j :| 0 <= j < |ids| && ids[j] == more[k];
        assert HoldsAt(dir, ids[j], contents, ext);
      }
    }
  }

  lemma RemoveFirstHolds<V>(dir: map<string, V>, ids: seq<Index>, contents: map<Index, V>, ext: string)
    requires Holds(dir, ids, contents, ext) && ids != []
    ensures Holds(dir - {Name(ids[0], ext)}, ids[1..], contents, ext)
  {
    var rest, after := ids[1..], dir - {Name(ids[0], ext)};
    assert HoldsAt(dir, ids[0], contents, ext);
    assert after.Keys == dir.Keys - {Name(ids[0], ext)};
    forall k | 0 <= k < |rest| ensures HoldsAt(after, rest[k], contents, ext) {
      assert rest[k] == ids[k + 1];
      assert HoldsAt(dir, ids[k + 1], contents, ext);
      NameOrder(ids[k + 1], ids[0], ext);
    }
  }

  method WriteFile<V>(dir: map<string, V>, i: Index, v: V,
                      ghost ids: seq<Index>, ghost contents: map<Index, V>, ext: string)
    returns (after: map<string, V>)
    requires Holds(dir, ids, contents, ext)
    ensures Holds(after, Insert(ids, i), contents[i := v], ext)
  {
    after := dir[Name(i, ext) := v];
    WriteHolds(dir, ids, contents, ext, i, v);
  }

  /** Trimming a directory removes its first files until few enough are left. */
  method Trim<V>(dir: map<string, V>, retain: nat,
                 ghost ids: seq<Index>, ghost contents: map<Index, V>, ghost ext: string)
    returns (after: map<string, V>)
    requires Holds(dir, ids, contents, ext)
    ensures Holds(after, Trimmed(ids, retain), contents, ext)
  {
    after := dir;
    var files := ListFiles(dir);
    ListingIs(dir, ids, contents, ext, files);
    ghost var left := ids;
    while |files| > retain
      invariant Holds(after, left, contents, ext) && Lists(files, left, ext)
      invariant Trimmed(left, retain) == Trimmed(ids, retain)
    {
      RemoveFirstHolds(after, left, contents, ext);
      after := after - {files[0]};
      files := files[1..];
      left := left[1..];
    }
  }

  /** The file that sorts last is the one of the largest index. */
  method LoadLast<V>(dir: map<string, V>, ghost ids: seq<Index>, ghost contents: map<Index, V>, ghost ext: string)
    returns (r: Option<V>)
    requires Holds(dir, ids, contents, ext)
    ensures r.Some? <==> ids != []
    ensures r.Some? ==> ids[|ids| - 1] in contents && r.value == contents[ids[|ids| - 1]]
  {
    var files := ListFiles(dir);
    ListingIs(dir, ids, contents, ext, files);
    if |files| == 0 {
      return None;
    }
    assert HoldsAt(dir, ids[|ids| - 1], contents, ext);
    r := Some(dir[files[|files| - 1]]);
  }

  method LoadDown<V>(dir: map<string, V>, ghost ids: seq<Index>, ghost contents: map<Index, V>, ghost ext: string)
    returns (r: seq<V>)
    requires Holds(dir, ids, contents, ext)
    ensures |r| == |ids| && forall k :: 0 <= k < |r| ==> Is(r[k], ids[|ids| - 1 - k], contents)
  {
    var files := ListFiles(dir);
    ListingIs(dir, ids, contents, ext, files);
    r := [];
    for i := |files| downto 0
      invariant |r| == |files| - i
      invariant forall k :: 0 <= k < |r| ==> Is(r[k], ids[|ids| - 1 - k], contents)
    {
      assert HoldsAt(dir, ids[i], contents, ext);
      r := r + [dir[files[i]]];
    }
  }

  ghost predicate Is<V>(v: V, i: Index, contents: map<Index, V>) {
    i in contents && v == contents[i]
  }

  /** Write both files of a snapshot, then trim both kinds. */
  method SaveFiles(snapshots: map<string, Snapshot>, metas: map<string, Meta>, s: Snapshot, meta: Meta, retain: nat,
                   ghost kept: seq<Index>, ghost lastSnapshots: map<Index, Snapshot>, ghost lastMetas: map<Index, Meta>)
    returns (snapshots': map<string, Snapshot>, metas': map<string, Meta>, ghost kept': seq<Index>)
    requires retain >= 1 && Newest(kept, lastSnapshots.Keys, retain)
    requires Holds(snapshots, kept, lastSnapshots, ".json") && Holds(metas, kept, lastMetas, ".meta")
    ensures Newest(kept', lastSnapshots[s.index := s].Keys, retain)
    ensures Holds(snapshots', kept', lastSnapshots[s.index := s], ".json")
    ensures Holds(metas', kept', lastMetas[s.index := meta], ".meta")
  {
    ghost var more := Insert(kept, s.index);
    snapshots' := WriteFile(snapshots, s.index, s, kept, lastSnapshots, ".json");
    metas' := WriteFile(metas, s.index, meta, kept, lastMetas, ".meta");
    snapshots' := Trim(snapshots', retain, more, lastSnapshots[s.index := s], ".json");
    metas' := Trim(metas', retain, more, lastMetas[s.index := meta], ".meta");
    kept' := Trimmed(more, retain);
    NewestKept(kept, lastSnapshots.Keys, retain, s.index);
    assert lastSnapshots[s.index := s].Keys == lastSnapshots.Keys + {s.index};
  }

  // ---------- the store ----------

  class FileSnapshotStore {
    const retain: nat
    var snapshots: map<string, Snapshot>
    var metas: map<string, Meta>
    /** What was last saved under each index ever saved. */
    ghost var lastSnapshots: map<Index, Snapshot>
    ghost var lastMetas: map<Index, Meta>
    ghost var kept: seq<Index>

    /** The directory holds exactly the newest of the indices ever saved, with what was last saved
        under them. */
    ghost predicate Valid()
      reads this
    {
      && retain >= 1 && lastSnapshots.Keys == lastMetas.Keys
      && Newest(kept, lastSnapshots.Keys, retain)
      && Holds(snapshots, kept, lastSnapshots, ".json")
      && Holds(metas, kept, lastMetas, ".meta")
      && forall i :: i in lastSnapshots ==> lastSnapshots[i].index == i
    }

    constructor (retain: int)
      ensures Valid() && lastSnapshots == map[] && this.retain == if retain < 1 then 1 else retain
    {
      this.retain := if retain < 1 then 1 else retain;
      snapshots, metas := map[], map[];
      lastSnapshots, lastMetas, kept := map[], map[], [];
    }

    method Save(snapshot: Option<Snapshot>, now: int) returns (ok: bool)
      requires Valid()
      modifies this
      ensures Valid() && ok == snapshot.Some?
      ensures ok ==>
                var s := snapshot.value;
                && lastSnapshots == old(lastSnapshots)[s.index := s]
                && lastMetas == old(lastMetas)[s.index := Meta(s.index, s.term, |s.data|, now, s.metadata)]
      ensures !ok ==> lastSnapshots == old(lastSnapshots) && lastMetas == old(lastMetas) && kept == old(kept)
    {
      if snapshot.None? {
        return false;
      }
      var s := snapshot.value;
      var meta := Meta(s.index, s.term, |s.data|, now, s.metadata);
      snapshots, metas, kept := SaveFiles(snapshots, metas, s, meta, retain, kept, lastSnapshots, lastMetas);
      lastSnapshots, lastMetas := lastSnapshots[s.index := s], lastMetas[s.index := meta];
      ok := true;
    }

    /** The snapshot with the largest index ever saved, as it was last saved. */
    method Load() returns (r: Option<Snapshot>)
      requires Valid()
      ensures r.None? <==> lastSnapshots == map[]
      ensures r.Some? ==>
                && r.value.index in lastSnapshots && r.value == lastSnapshots[r.value.index]
                && forall i :: i in lastSnapshots ==> i <= r.value.index
    {
      r := LoadLast(snapshots, kept, lastSnapshots, ".json");
      forall i | i in lastSnapshots ensures kept != [] && i <= kept[|kept| - 1] {
        LastIsNewest(kept, lastSnapshots.Keys, retain, i);
      }
      assert r.None? ==> lastSnapshots.Keys == {};
    }

    /** The metadata of every kept snapshot, newest first. */
    method List() returns (r: seq<Meta>)
      requires Valid()
      ensures |r| == |kept| && forall k :: 0 <= k < |r| ==> Is(r[k], kept[|kept| - 1 - k], lastMetas)
    {
      r := LoadDown(metas, kept, lastMetas, ".meta");
    }
  }
}
