/** A Raft node as a value, and what each of its RPC handlers makes of it.
    Every handler is one atomic step; timers, callbacks and the network are left out.
    The functions are total: they follow the handlers on every log and every request, well formed
    or not. `RaftNode` runs the same steps on fields and is proved to agree with them. */
module RaftModel {
  import opened Collections
  import opened Lexicographic

  type Command = string

  datatype LogEntry = LogEntry(index: nat, term: nat, command: Command)

  datatype Role = Follower | Candidate | Leader

  /** `applied` lists the commands handed to the state machine since it was created or restored. */
  datatype Node = Node(
    id: string,
    role: Role,
    term: nat,
    votedFor: string,
    leader: string,
    log: seq<LogEntry>,
    startIndex: nat,
    startTerm: nat,
    commitIndex: nat,
    lastApplied: nat,
    applied: seq<Command>)

  datatype VoteRequest = VoteRequest(term: nat, candidate: string, lastLogIndex: nat, lastLogTerm: nat)
  datatype VoteResponse = VoteResponse(term: nat, granted: bool)

  datatype AppendRequest = AppendRequest(
    term: nat, leader: string, prevIndex: nat, prevTerm: nat, entries: seq<LogEntry>, leaderCommit: nat)

  /** `AppendPanic` is the run-time failure of allocating a buffer of `commitIndex - lastApplied`
      commands when that unsigned difference wraps around. */
  datatype AppendResponse =
    | AppendResponse(term: nat, success: bool, conflictIndex: nat, conflictTerm: nat)
    | AppendPanic

  datatype SnapshotRequest = SnapshotRequest(term: nat, leader: string, lastIndex: nat, lastTerm: nat)
  datatype SnapshotResponse = SnapshotResponse(term: nat, success: bool)

  // ---------- the in-memory log ----------

  function Middle(lo: nat, hi: nat): (mid: nat)
    ensures lo < hi ==> lo <= mid < hi
  {
    if lo < hi then lo + (hi - lo) / 2 else lo
  }

  /** Binary search for the first position whose entry is not below `index`. */
  function Search(log: seq<LogEntry>, index: nat, lo: nat, hi: nat): (r: nat)
    requires lo <= hi <= |log|
    ensures lo <= r <= hi
    decreases hi - lo
  {
    if lo == hi then lo
    else
      var mid := Middle(lo, hi);
      if log[mid].index < index then Search(log, index, mid + 1, hi) else Search(log, index, lo, mid)
  }

  function FindSlot(log: seq<LogEntry>, index: nat): (slot: int)
    ensures slot == -1 || (0 <= slot < |log| && log[slot].index == index)
  {
    var lo := Search(log, index, 0, |log|);
    if lo < |log| && log[lo].index == index then lo else -1
  }

  /** The index a candidate, a heartbeat or the commit clamp sees: 0 on an empty log. */
  function LastLogIndex(log: seq<LogEntry>): nat {
    if log == [] then 0 else log[|log| - 1].index
  }

  /** The index the consistency check and snapshots see: the watermark on an empty log. */
  function LastIndex(n: Node): nat {
    if n.log == [] then n.startIndex else n.log[|n.log| - 1].index
  }

  function LastTerm(n: Node): nat {
    if n.log == [] then n.startTerm else n.log[|n.log| - 1].term
  }

  function AppendOne(log: seq<LogEntry>, startIndex: nat, e: LogEntry): seq<LogEntry> {
    if e.index <= startIndex then log
    else
      var slot := FindSlot(log, e.index);
      if slot < 0 then log + [e]
      else if log[slot].term != e.term then log[..slot] + [e]
      else log
  }

  function AppendAll(log: seq<LogEntry>, startIndex: nat, entries: seq<LogEntry>): seq<LogEntry>
    decreases |entries|
  {
    if entries == [] then log
    else
      var k := |entries| - 1;
      AppendOne(AppendAll(log, startIndex, entries[..k]), startIndex, entries[k])
  }

  /** The commands at indices `from..last`, up to the first index the log does not hold. */
  function Available(log: seq<LogEntry>, from: nat, last: nat): seq<Command>
    decreases last + 1 - from
  {
    if from > last then []
    else
      var slot := FindSlot(log, from);
      if slot < 0 then [] else [log[slot].command] + Available(log, from + 1, last)
  }

  // ---------- elections ----------

  function StepDown(n: Node, term: nat): Node {
    if term > n.term then n.(term := term, role := Follower, votedFor := "") else n
  }

  predicate LogUpToDate(n: Node, lastLogIndex: nat, lastLogTerm: nat) {
    var myTerm := if n.log == [] then 0 else n.log[|n.log| - 1].term;
    if lastLogTerm != myTerm then lastLogTerm > myTerm else lastLogIndex >= LastLogIndex(n.log)
  }

  function YieldSelfVote(n: Node, req: VoteRequest): Node {
    if n.votedFor == n.id && req.term == n.term && Less(n.id, req.candidate)
    then n.(role := Follower, votedFor := "")
    else n
  }

  function HandleVote(n: Node, req: VoteRequest): (Node, VoteResponse) {
    if req.term < n.term then (n, VoteResponse(n.term, false))
    else
      var m := YieldSelfVote(StepDown(n, req.term), req);
      if (m.votedFor == "" || m.votedFor == req.candidate)
         && LogUpToDate(m, req.lastLogIndex, req.lastLogTerm)
      then (m.(votedFor := req.candidate), VoteResponse(m.term, true))
      else (m, VoteResponse(m.term, false))
  }

  function StartElection(n: Node): Node {
    n.(role := Candidate, term := n.term + 1, votedFor := n.id)
  }

  /** The votes are in, or time is up: a node that has stepped down meanwhile ignores the outcome. */
  function ConcludeElection(n: Node, won: bool): Node {
    if n.role != Candidate then n
    else if won then n.(role := Leader, leader := n.id)
    else n.(role := Follower)
  }

  /** A leader out of touch with the majority gives up. */
  function LoseQuorum(n: Node): Node {
    if n.role == Leader then n.(role := Follower, leader := "") else n
  }

  // ---------- replication ----------

  datatype Consistency = Consistent | Conflict(index: nat, term: nat)

  function CheckPrevious(n: Node, req: AppendRequest): Consistency {
    if req.prevIndex == 0 then Consistent
    else if req.prevIndex <= n.startIndex then
      if req.prevIndex == n.startIndex && req.prevTerm != n.startTerm
      then Conflict(n.startIndex, n.startTerm) else Consistent
    else if req.prevIndex > LastIndex(n) then Conflict(LastIndex(n), 0)
    else
      var slot := FindSlot(n.log, req.prevIndex);
      if slot < 0 then Conflict(LastIndex(n), 0)
      else if n.log[slot].term != req.prevTerm then Conflict(req.prevIndex, n.log[slot].term)
      else Consistent
  }

  /** Advance the commit index and apply what it newly covers. */
  function Commit(n: Node, leaderCommit: nat): (Node, AppendResponse) {
    var ok := AppendResponse(n.term, true, 0, 0);
    if leaderCommit <= n.commitIndex then (n, ok)
    else
      var commit := Min(leaderCommit, LastLogIndex(n.log));
      var m := n.(commitIndex := commit);
      if commit < m.lastApplied then (m, AppendPanic)
      else
        var commands := Available(m.log, m.lastApplied + 1, commit);
        (m.(applied := m.applied + commands, lastApplied := m.lastApplied + |commands|), ok)
  }

  function HandleAppend(n: Node, req: AppendRequest): (Node, AppendResponse) {
    if req.term < n.term then (n, AppendResponse(n.term, false, 0, 0))
    else
      var m := StepDown(n, req.term).(leader := req.leader);
      match CheckPrevious(m, req)
      case Conflict(index, term) => (m, AppendResponse(m.term, false, index, term))
      case Consistent => Commit(m.(log := AppendAll(m.log, m.startIndex, req.entries)), req.leaderCommit)
  }

  /** What the leader appends for a proposed command. */
  function LeaderAppend(n: Node, command: Command): Node {
    n.(log := n.log + [LogEntry(LastLogIndex(n.log) + 1, n.term, command)])
  }

  // ---------- snapshots ----------

  function Above(log: seq<LogEntry>, index: nat): seq<LogEntry> {
    if log == [] then []
    else
      var k := |log| - 1;
      Above(log[..k], index) + (if log[k].index > index then [log[k]] else [])
  }

  function Compact(n: Node, index: nat): Node {
    var slot := FindSlot(n.log, index);
    var m := n.(log := Above(n.log, index));
    if index > n.startIndex
    then m.(startIndex := index, startTerm := if slot >= 0 then n.log[slot].term else 0)
    else m
  }

  function Restore(n: Node, lastIndex: nat, lastTerm: nat): Node {
    var m := n.(log := [], commitIndex := lastIndex, lastApplied := lastIndex, applied := []);
    var w := if lastIndex > n.startIndex then m.(startIndex := lastIndex, startTerm := lastTerm) else m;
    if lastTerm > w.term then w.(term := lastTerm) else w
  }

  /** `restored` is whether the state machine accepted the snapshot's data. */
  function HandleSnapshot(n: Node, req: SnapshotRequest, restored: bool): (Node, SnapshotResponse) {
    if req.term < n.term then (n, SnapshotResponse(n.term, false))
    else
      var m := StepDown(n, req.term).(leader := req.leader);
      if !restored then (m, SnapshotResponse(m.term, false))
      else
        var r := Restore(m, req.lastIndex, req.lastTerm);
        (r, SnapshotResponse(r.term, true))
  }

  predicate ShouldSendSnapshot(n: Node, nextIndex: nat) {
    if n.log == [] then nextIndex <= n.startIndex else nextIndex < n.log[0].index
  }
}
