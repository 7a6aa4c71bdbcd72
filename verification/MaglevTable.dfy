/** Filling the Maglev lookup table. Each round takes, over all backends, the first slot of its row
    that is still empty, and gives the smallest such slot to the first backend that offers it. The
    program keeps a cursor per row instead of searching from the start; the reference does not. */
module MaglevTable {
  import opened Collections
  import opened MaglevRows

  const EMPTY := -1

  datatype Placement = Placement(slot: nat, backend: nat)

  predicate InRange(steps: seq<Placement>, size: nat) {
    forall k :: 0 <= k < |steps| ==> steps[k].slot < size
  }

  function TableAfter(steps: seq<Placement>, size: nat): (table: seq<int>)
    requires InRange(steps, size)
    ensures |table| == size
    decreases |steps|
  {
    if steps == [] then seq(size, _ => EMPTY)
    else TableAfter(Most(steps), size)[Last(steps).slot := Last(steps).backend]
  }

  // ---------- the reference ----------

  ghost predicate RowsOk(rows: seq<seq<nat>>, size: nat) {
    forall j :: 0 <= j < |rows| ==> IsPermutation(rows[j], size)
  }

  /** Entry `i` is the first of the row whose slot is empty. */
  ghost predicate FirstFree(row: seq<nat>, table: seq<int>, i: nat)
    requires IsPermutation(row, |table|)
  {
    i < |row| && table[row[i]] == EMPTY && forall k :: 0 <= k < i ==> table[row[k]] != EMPTY
  }

  /** The placement gives the smallest slot any row offers to the first row that offers it. */
  ghost predicate Picks(rows: seq<seq<nat>>, table: seq<int>, p: Placement)
    requires RowsOk(rows, |table|)
  {
    && p.backend < |rows|
    && (exists i: nat :: FirstFree(rows[p.backend], table, i) && rows[p.backend][i] == p.slot)
    && (forall j, i: nat :: 0 <= j < |rows| && FirstFree(rows[j], table, i) ==>
          p.slot <= rows[j][i] && (j < p.backend ==> p.slot < rows[j][i]))
  }

  /** Each placement is what the reference picks for the table its predecessors leave. */
  ghost predicate IsFill(rows: seq<seq<nat>>, size: nat, steps: seq<Placement>)
    requires RowsOk(rows, size)
    ensures IsFill(rows, size, steps) ==> InRange(steps, size)
    decreases |steps|
  {
    InRange(steps, size) && (steps == [] || (
      && IsFill(rows, size, Most(steps))
      && Picks(rows, TableAfter(Most(steps), size), Last(steps))))
  }

  ghost predicate IsTableFor(rows: seq<seq<nat>>, table: seq<int>)
    requires RowsOk(rows, |table|)
  {
    exists steps :: IsFill(rows, |table|, steps) && |steps| == |table| && table == TableAfter(steps, |table|)
  }

  // ---------- what a fill does ----------

  ghost function Slots(steps: seq<Placement>): set<nat>
    decreases |steps|
  {
    if steps == [] then {} else Slots(Most(steps)) + {Last(steps).slot}
  }

  /** Exactly the given slots are taken, each by one of the backends. */
  ghost predicate Taken(table: seq<int>, slots: set<nat>, backends: nat) {
    && (forall s :: s in slots ==> s < |table|)
    && (forall s :: 0 <= s < |table| ==> (table[s] == EMPTY <==> s !in slots))
    && (forall s :: 0 <= s < |table| && table[s] != EMPTY ==> 0 <= table[s] < backends)
  }

  lemma TakenNext(table: seq<int>, slots: set<nat>, backends: nat, p: Placement)
    requires Taken(table, slots, backends) && p.slot < |table| && table[p.slot] == EMPTY && p.backend < backends
    ensures p.slot !in slots && Taken(table[p.slot := p.backend], slots + {p.slot}, backends)
  {
  }

  /** A slot is empty exactly when no placement has named it, and holds a backend otherwise; as many
      slots are taken as there are placements, so no placement reassigns one. */
  lemma {:induction false} FillTakesOneEach(rows: seq<seq<nat>>, size: nat, steps: seq<Placement>)
    requires RowsOk(rows, size) && IsFill(rows, size, steps)
    ensures |Slots(steps)| == |steps| && Taken(TableAfter(steps, size), Slots(steps), |rows|)
    decreases |steps|
  {
    if steps == [] {
    } else {
      var before := TableAfter(Most(steps), size);
      FillTakesOneEach(rows, size, Most(steps));
      PickIsEmpty(rows, before, Last(steps));
      TakenNext(before, Slots(Most(steps)), |rows|, Last(steps));
    }
  }

  lemma PickIsEmpty(rows: seq<seq<nat>>, table: seq<int>, p: Placement)
    requires RowsOk(rows, |table|) && Picks(rows, table, p)
    ensures p.slot < |table| && table[p.slot] == EMPTY && p.backend < |rows|
  {
  }

  /** Any round of a fill: one empty slot is filled and every other slot is left alone. */
  lemma {:induction false} RoundFillsOneSlot(rows: seq<seq<nat>>, size: nat, steps: seq<Placement>, k: nat)
    requires RowsOk(rows, size) && IsFill(rows, size, steps) && k < |steps|
    ensures var before, after := TableAfter(steps[..k], size), TableAfter(steps[..k + 1], size);
            && before[steps[k].slot] == EMPTY && after[steps[k].slot] == steps[k].backend
            && forall s :: 0 <= s < size && s != steps[k].slot ==> after[s] == before[s]
    decreases |steps|
  {
    if k == |steps| - 1 {
      assert steps[..k + 1] == steps && steps[..k] == Most(steps);
      PickIsEmpty(rows, TableAfter(Most(steps), size), Last(steps));
    } else {
      RoundFillsOneSlot(rows, size, Most(steps), k);
      assert Most(steps)[..k] == steps[..k] && Most(steps)[..k + 1] == steps[..k + 1];
    }
  }

  /** After as many rounds as slots, every slot names a backend. */
  lemma FullTable(rows: seq<seq<nat>>, table: seq<int>)
    requires RowsOk(rows, |table|) && IsTableFor(rows, table)
    ensures forall s :: 0 <= s < |table| ==> 0 <= table[s] < |rows|
  {
    var size := |table|;
    var steps :| IsFill(rows, size, steps) && |steps| == size && table == TableAfter(steps, size);
    FillTakesOneEach(rows, size, steps);
    BelowSize(size);
    assert Slots(steps) <= Below(size);
    SubsetSize(Slots(steps), Below(size));
  }

  lemma PicksUnique(rows: seq<seq<nat>>, table: seq<int>, p: Placement, q: Placement)
    requires RowsOk(rows, |table|) && Picks(rows, table, p) && Picks(rows, table, q)
    ensures p == q
  {
    var i: nat :| FirstFree(rows[p.backend], table, i) && rows[p.backend][i] == p.slot;
    var j: nat :| FirstFree(rows[q.backend], table, j) && rows[q.backend][j] == q.slot;
  }

  lemma {:induction false} FillUnique(rows: seq<seq<nat>>, size: nat, a: seq<Placement>, b: seq<Placement>)
    requires RowsOk(rows, size) && IsFill(rows, size, a) && IsFill(rows, size, b) && |a| == |b|
    ensures a == b
    decreases |a|
  {
    if a == [] {
    } else {
      FillUnique(rows, size, Most(a), Most(b));
      PicksUnique(rows, TableAfter(Most(a), size), Last(a), Last(b));
      assert a == Most(a) + [Last(a)] && b == Most(b) + [Last(b)];
    }
  }

  /** The finished table depends on the rows alone. */
  lemma TableUnique(rows: seq<seq<nat>>, t: seq<int>, u: seq<int>)
    requires |t| == |u| && RowsOk(rows, |t|) && IsTableFor(rows, t) && IsTableFor(rows, u)
    ensures t == u
  {
    var size := |t|;
    var a :| IsFill(rows, size, a) && |a| == size && t == TableAfter(a, size);
    var b :| IsFill(rows, size, b) && |b| == size && u == TableAfter(b, size);
    FillUnique(rows, size, a, b);
  }

  // ---------- the program's loops ----------

  /** Moves one row's cursor past the slots already taken. `free` is an entry known to be empty. */
  method AdvanceCursor(row: seq<nat>, table: array<int>, from: nat, ghost free: nat) returns (at: nat)
    requires IsPermutation(row, table.Length)
    requires from <= free < |row| && table[row[free]] == EMPTY
    requires forall k :: 0 <= k < from ==> table[row[k]] != EMPTY
    ensures from <= at && FirstFree(row, table[..], at)
  {
    at := from;
    while at < |row|
      invariant from <= at <= free
      invariant forall k :: 0 <= k < at ==> table[row[k]] != EMPTY
    {
      if table[row[at]] == EMPTY {
        break;
      }
      at := at + 1;
    }
  }

  /** Every slot a cursor has passed is taken. */
  ghost predicate CursorsOk(rows: seq<seq<nat>>, table: seq<int>, next: seq<int>)
    requires RowsOk(rows, |table|)
  {
    && |next| == |rows|
    && (forall j :: 0 <= j < |rows| ==> CursorOk(rows[j], table, next[j]))
  }

  ghost predicate CursorOk(row: seq<nat>, table: seq<int>, at: int)
    requires IsPermutation(row, |table|)
  {
    0 <= at <= |row| && forall k :: 0 <= k < at ==> table[row[k]] != EMPTY
  }

  lemma FirstFreeUnique(row: seq<nat>, table: seq<int>, i: nat, j: nat)
    requires IsPermutation(row, |table|) && FirstFree(row, table, i) && FirstFree(row, table, j)
    ensures i == j
  {
  }

  /** `p` is the smallest offer of the first `n` rows, each offering the entry under its cursor. */
  ghost predicate BestOf(rows: seq<seq<nat>>, table: seq<int>, next: seq<int>, n: nat, p: Placement)
    requires RowsOk(rows, |table|) && n <= |rows| == |next|
  {
    && (forall j :: 0 <= j < n ==> next[j] >= 0 && FirstFree(rows[j], table, next[j]))
    && p.backend < n && rows[p.backend][next[p.backend]] == p.slot
    && (forall j :: 0 <= j < n ==> p.slot <= rows[j][next[j]] && (j < p.backend ==> p.slot < rows[j][next[j]]))
  }

  lemma BestIsPick(rows: seq<seq<nat>>, table: seq<int>, next: seq<int>, p: Placement)
    requires RowsOk(rows, |table|) && |rows| == |next| && BestOf(rows, table, next, |rows|, p)
    ensures Picks(rows, table, p)
  {
    assert FirstFree(rows[p.backend], table, next[p.backend]);
    forall j, i: nat | 0 <= j < |rows| && FirstFree(rows[j], table, i)
      ensures p.slot <= rows[j][i] && (j < p.backend ==> p.slot < rows[j][i])
    {
      FirstFreeUnique(rows[j], table, i, next[j]);
    }
  }

  /** A row entry for an empty slot lies at or past the row's cursor. */
  lemma FreeEntry(row: seq<nat>, table: seq<int>, at: int, open: nat) returns (free: nat)
    requires IsPermutation(row, |table|) && CursorOk(row, table, at)
    requires open < |table| && table[open] == EMPTY
    ensures at <= free < |row| && table[row[free]] == EMPTY
  {
    assert open in row;
    free :| free < |row| && row[free] == open;
  }

  const MAX_UINT64 := 0xFFFF_FFFF_FFFF_FFFF

  /** One round's scan: advance every cursor to its first free slot and keep the smallest offer. */
  method PickSmallest(rows: seq<seq<nat>>, table: array<int>, next: array<int>, ghost open: nat)
      returns (p: Placement, advances: nat)
    requires rows != [] && RowsOk(rows, table.Length) && table.Length <= MAX_UINT64 && table != next
    requires CursorsOk(rows, table[..], next[..]) && open < table.Length && table[open] == EMPTY
    modifies next
    ensures CursorsOk(rows, table[..], next[..]) && BestOf(rows, table[..], next[..], |rows|, p)
    ensures Sum(next[..]) == old(Sum(next[..])) + advances
  {
    var minPos: nat, minBackend := MAX_UINT64, -1;
    advances := 0;
    for j := 0 to |rows|
      invariant CursorsOk(rows, table[..], next[..])
      invariant if j == 0 then minBackend == -1 && minPos == MAX_UINT64
                else minBackend >= 0 && BestOf(rows, table[..], next[..], j, Placement(minPos, minBackend))
      invariant Sum(next[..]) == old(Sum(next[..])) + advances
    {
      ghost var free := FreeEntry(rows[j], table[..], next[j], open);
      var at := AdvanceCursor(rows[j], table, next[j], free);
      ghost var before := next[..];
      advances := advances + (at - next[j]);
      next[j] := at;
      assert next[..] == before[j := at];
      SumUpdated(before, j, at);
      var pos := rows[j][at];
      if pos < minPos {
        minPos, minBackend := pos, j;
      }
    }
    p := Placement(minPos, minBackend);
  }

  lemma PlaceKeepsCursors(rows: seq<seq<nat>>, table: seq<int>, next: seq<int>, p: Placement)
    requires RowsOk(rows, |table|) && CursorsOk(rows, table, next) && BestOf(rows, table, next, |rows|, p)
    ensures p.slot < |table|
    ensures CursorsOk(rows, table[p.slot := p.backend], next[p.backend := next[p.backend] + 1])
  {
  }

  /** One round: pick, place, and move the chosen row's cursor on. */
  method FillRound(rows: seq<seq<nat>>, table: array<int>, next: array<int>, ghost steps: seq<Placement>)
      returns (p: Placement, advances: nat)
    requires rows != [] && RowsOk(rows, table.Length) && table.Length <= MAX_UINT64 && table != next
    requires IsFill(rows, table.Length, steps) && |steps| < table.Length
    requires table[..] == TableAfter(steps, table.Length) && CursorsOk(rows, table[..], next[..])
    modifies table, next
    ensures IsFill(rows, table.Length, steps + [p]) && table[..] == TableAfter(steps + [p], table.Length)
    ensures CursorsOk(rows, table[..], next[..])
    ensures Sum(next[..]) == old(Sum(next[..])) + advances
  {
    FillTakesOneEach(rows, table.Length, steps);
    ghost var open := FreeSlotExists(Slots(steps), table.Length);
    p, advances := PickSmallest(rows, table, next, open);
    ghost var t, n := table[..], next[..];
    BestIsPick(rows, t, n, p);
    PlaceKeepsCursors(rows, t, n, p);
    SumUpdated(n, p.backend, n[p.backend] + 1);
    assert Most(steps + [p]) == steps && Last(steps + [p]) == p;
    table[p.slot] := p.backend;
    next[p.backend] := next[p.backend] + 1;
    advances := advances + 1;
    assert table[..] == t[p.slot := p.backend] && next[..] == n[p.backend := n[p.backend] + 1];
  }

  method ClearTable(table: array<int>)
    modifies table
    ensures table[..] == TableAfter([], table.Length)
  {
    for i := 0 to table.Length
      invariant forall k :: 0 <= k < i ==> table[k] == EMPTY
    {
      table[i] := EMPTY;
    }
  }

  /** The rebuild loop. The table it leaves is the reference table of the rows, and the cursors
      move at most once per row and slot. */
  method FillTable(rows: seq<seq<nat>>, table: array<int>) returns (advances: nat)
    requires rows != [] && RowsOk(rows, table.Length) && table.Length <= MAX_UINT64
    modifies table
    ensures IsTableFor(rows, table[..])
    ensures advances <= |rows| * table.Length
  {
    ClearTable(table);
    var next := new int[|rows|](_ => 0);
    SumZero(next[..], next.Length);
    ghost var steps: seq<Placement> := [];
    advances := 0;
    for round := 0 to table.Length
      invariant |steps| == round && IsFill(rows, table.Length, steps)
      invariant table[..] == TableAfter(steps, table.Length)
      invariant CursorsOk(rows, table[..], next[..]) && Sum(next[..]) == advances
    {
      var p, moved := FillRound(rows, table, next, steps);
      advances := advances + moved;
      steps := steps + [p];
    }
    SumToBound(next[..], next.Length, table.Length);
  }
}
