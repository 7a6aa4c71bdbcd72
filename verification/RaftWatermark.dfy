/** The compaction watermark. Whatever mix of appends, compactions, snapshot restores, votes and
    elections a node goes through, its in-memory log holds exactly the consecutive indices that
    follow the watermark, and everything that looks an entry up by index relies on that. */
module RaftWatermark {
  import opened Collections
  import opened RaftModel

  predicate Contiguous(entries: seq<LogEntry>, after: nat) {
    forall i :: 0 <= i < |entries| ==> entries[i].index == after + 1 + i
  }

  predicate WellFormed(n: Node) {
    Contiguous(n.log, n.startIndex)
  }

  // ---------- lookups ----------

  lemma {:induction false} SearchContiguous(log: seq<LogEntry>, start: nat, index: nat, lo: nat, hi: nat)
    requires Contiguous(log, start) && lo <= hi <= |log|
    requires lo == 0 || start + lo < index
    requires hi == |log| || index <= start + 1 + hi
    ensures var r := Search(log, index, lo, hi);
            (r == 0 || start + r < index) && (r == |log| || index <= start + 1 + r)
    decreases hi - lo
  {
    if lo == hi {
    } else {
      var mid := Middle(lo, hi);
      assert log[mid].index == start + 1 + mid;
      if log[mid].index < index {
        SearchContiguous(log, start, index, mid + 1, hi);
      } else {
        SearchContiguous(log, start, index, lo, mid);
      }
    }
  }

  /** The binary search finds an entry exactly when its index lies above the watermark and within
      the log, and then at the position the index itself determines. */
  lemma FindSlotContiguous(log: seq<LogEntry>, start: nat, index: nat)
    requires Contiguous(log, start)
    ensures FindSlot(log, index) == if start < index <= start + |log| then index - start - 1 else -1
  {
    SearchContiguous(log, start, index, 0, |log|);
  }

  // ---------- appends ----------

  lemma AppendOneContiguous(log: seq<LogEntry>, start: nat, e: LogEntry)
    requires Contiguous(log, start) && e.index <= start + |log| + 1
    ensures Contiguous(AppendOne(log, start, e), start)
    ensures e.index <= start + |AppendOne(log, start, e)|
  {
    FindSlotContiguous(log, start, e.index);
  }

  lemma {:induction false} AppendAllContiguous(log: seq<LogEntry>, start: nat, entries: seq<LogEntry>, prev: nat)
    requires Contiguous(log, start) && Contiguous(entries, prev) && prev <= start + |log|
    ensures Contiguous(AppendAll(log, start, entries), start)
    ensures prev + |entries| <= start + |AppendAll(log, start, entries)|
    decreases |entries|
  {
    if entries == [] {
    } else {
      var k := |entries| - 1;
      AppendAllContiguous(log, start, entries[..k], prev);
      AppendOneContiguous(AppendAll(log, start, entries[..k]), start, entries[k]);
    }
  }

  /** A consistent request starts inside the log or below its watermark, never beyond a gap. */
  lemma ConsistentStartsInside(n: Node, req: AppendRequest)
    requires WellFormed(n) && CheckPrevious(n, req).Consistent?
    ensures req.prevIndex <= n.startIndex + |n.log|
  {
  }

  lemma CommitKeepsLog(n: Node, leaderCommit: nat)
    ensures var m := Commit(n, leaderCommit).0;
            m.log == n.log && m.startIndex == n.startIndex
  {
  }

  lemma HandleAppendKeeps(n: Node, req: AppendRequest)
    requires WellFormed(n) && Contiguous(req.entries, req.prevIndex)
    ensures WellFormed(HandleAppend(n, req).0)
  {
    if req.term >= n.term {
      var m := StepDown(n, req.term).(leader := req.leader);
      if CheckPrevious(m, req).Consistent? {
        ConsistentStartsInside(m, req);
        AppendAllContiguous(m.log, m.startIndex, req.entries, req.prevIndex);
        CommitKeepsLog(m.(log := AppendAll(m.log, m.startIndex, req.entries)), req.leaderCommit);
      }
    }
  }

  // ---------- snapshots ----------

  lemma SuffixOfMost(log: seq<LogEntry>, k: nat)
    requires k < |log|
    ensures log[k..] == Most(log)[k..] + [Last(log)]
  {
  }

  lemma {:induction false} AboveContiguous(log: seq<LogEntry>, start: nat, index: nat)
    requires Contiguous(log, start)
    ensures Above(log, index) == if index <= start then log
                                 else if index <= start + |log| then log[index - start..]
                                 else []
    decreases |log|
  {
    if log == [] {
    } else {
      AboveContiguous(Most(log), start, index);
      SuffixOfMost(log, if start < index < start + |log| then index - start else 0);
    }
  }

  // ---------- whole runs ----------

  datatype Step =
    | Append(append: AppendRequest)
    | CompactTo(index: nat)
    | RestoreFrom(lastIndex: nat, lastTerm: nat)
    | Install(snapshot: SnapshotRequest, restored: bool)
    | Vote(vote: VoteRequest)
    | Elect
    | Conclude(won: bool)
    | LoseContact

  /** Leaders send entries that follow one another from just past the previous index. */
  predicate Legal(s: Step) {
    s.Append? ==> Contiguous(s.append.entries, s.append.prevIndex)
  }

  function Take(n: Node, s: Step): Node {
    match s
    case Append(req) => HandleAppend(n, req).0
    case CompactTo(index) => Compact(n, index)
    case RestoreFrom(lastIndex, lastTerm) => Restore(n, lastIndex, lastTerm)
    case Install(req, restored) => HandleSnapshot(n, req, restored).0
    case Vote(req) => HandleVote(n, req).0
    case Elect => StartElection(n)
    case Conclude(won) => ConcludeElection(n, won)
    case LoseContact => LoseQuorum(n)
  }

  function Run(n: Node, steps: seq<Step>): Node
    decreases |steps|
  {
    if steps == [] then n else Take(Run(n, steps[..|steps| - 1]), steps[|steps| - 1])
  }

  lemma TakeKeeps(n: Node, s: Step)
    requires WellFormed(n) && Legal(s)
    ensures WellFormed(Take(n, s))
  {
    match s
    case Append(req) => HandleAppendKeeps(n, req);
    case CompactTo(index) => AboveContiguous(n.log, n.startIndex, index);
    case RestoreFrom(_, _) =>
    case Install(_, _) =>
    case Vote(_) =>
    case Elect =>
    case Conclude(_) =>
    case LoseContact =>
  }

  lemma {:induction false} RunKeeps(n: Node, steps: seq<Step>)
    requires WellFormed(n) && forall i :: 0 <= i < |steps| ==> Legal(steps[i])
    ensures WellFormed(Run(n, steps))
    decreases |steps|
  {
    if steps == [] {
    } else {
      RunKeeps(n, steps[..|steps| - 1]);
      TakeKeeps(Run(n, steps[..|steps| - 1]), steps[|steps| - 1]);
    }
  }

  /** After every run: the log is the consecutive indices past the watermark, lookup by index is
      exact, an index inside the range is never missing (so the consistency check's gap answer is
      unreachable), and both branches of the snapshot decision mean "at or below the watermark". */
  lemma WatermarkInvariant(n: Node, steps: seq<Step>, index: nat)
    requires WellFormed(n) && forall i :: 0 <= i < |steps| ==> Legal(steps[i])
    ensures var m := Run(n, steps);
            && WellFormed(m)
            && LastIndex(m) == m.startIndex + |m.log|
            && FindSlot(m.log, index) ==
               (if m.startIndex < index <= m.startIndex + |m.log| then index - m.startIndex - 1 else -1)
            && (m.startIndex < index <= LastIndex(m) ==> FindSlot(m.log, index) >= 0)
            && (ShouldSendSnapshot(m, index) <==> index <= m.startIndex)
  {
    RunKeeps(n, steps);
    FindSlotContiguous(Run(n, steps).log, Run(n, steps).startIndex, index);
  }

  // ---------- what compaction keeps ----------

  /** The term a node knows for an index from the watermark to the end of its log. */
  function TermAt(n: Node, index: nat): nat
    requires n.startIndex <= index <= n.startIndex + |n.log|
  {
    if index == n.startIndex then n.startTerm else n.log[index - n.startIndex - 1].term
  }

  /** The consistency check on a consecutive log: below the watermark everything passes, past the end
      nothing does, and in between the terms decide. A refusal names the end of the log, or the index
      and the node's own term for it. */
  lemma CheckExactly(n: Node, req: AppendRequest)
    requires WellFormed(n)
    ensures var prev, end := req.prevIndex, n.startIndex + |n.log|;
            CheckPrevious(n, req) ==
            if prev == 0 || prev < n.startIndex then Consistent
            else if prev > end then Conflict(end, 0)
            else if TermAt(n, prev) == req.prevTerm then Consistent
            else Conflict(prev, TermAt(n, prev))
  {
    FindSlotContiguous(n.log, n.startIndex, req.prevIndex);
  }

  /** An append that does not fail succeeds exactly in a term not past and with a previous entry that
      the node does not contradict. The answer carries the node's term, and a refusal in that term the
      end of the node's log or its own term for the previous index. */
  lemma AppendSucceedsExactly(n: Node, req: AppendRequest)
    requires WellFormed(n) && !HandleAppend(n, req).1.AppendPanic?
    ensures var (m, resp) := HandleAppend(n, req);
            && resp.term == m.term
            && (resp.success <==>
                  && req.term >= n.term
                  && (|| req.prevIndex == 0 || req.prevIndex < n.startIndex
                      || (req.prevIndex <= n.startIndex + |n.log| && TermAt(n, req.prevIndex) == req.prevTerm)))
            && (!resp.success && req.term >= n.term ==>
                  if req.prevIndex > n.startIndex + |n.log|
                  then (resp.conflictIndex, resp.conflictTerm) == (n.startIndex + |n.log|, 0)
                  else (resp.conflictIndex, resp.conflictTerm) == (req.prevIndex, TermAt(n, req.prevIndex)))
  {
    var m := StepDown(n, req.term).(leader := req.leader);
    CheckExactly(m, req);
  }

  /** After a snapshot newer than the watermark, a request right behind it passes exactly with the
      snapshot's term, and one further on is pointed to the snapshot. */
  lemma RestoredTermExactly(n: Node, lastIndex: nat, lastTerm: nat, req: AppendRequest)
    requires lastIndex > n.startIndex && req.prevIndex >= lastIndex
    ensures CheckPrevious(Restore(n, lastIndex, lastTerm), req).Consistent? <==>
            req.prevIndex == lastIndex && req.prevTerm == lastTerm
    ensures req.prevIndex > lastIndex ==> CheckPrevious(Restore(n, lastIndex, lastTerm), req) == Conflict(lastIndex, 0)
  {
    CheckExactly(Restore(n, lastIndex, lastTerm), req);
  }

  lemma CompactInside(n: Node, index: nat)
    requires WellFormed(n) && n.startIndex < index <= LastIndex(n)
    ensures Compact(n, index) ==
            n.(log := n.log[index - n.startIndex..], startIndex := index,
               startTerm := n.log[index - n.startIndex - 1].term)
  {
    FindSlotContiguous(n.log, n.startIndex, index);
    AboveContiguous(n.log, n.startIndex, index);
  }

  lemma SameChecks(n: Node, m: Node, req: AppendRequest)
    requires WellFormed(n) && WellFormed(m) && n.startIndex < m.startIndex <= req.prevIndex
    requires m.startIndex + |m.log| == n.startIndex + |n.log|
    requires m.startTerm == n.log[m.startIndex - n.startIndex - 1].term
    requires forall k :: 0 <= k < |m.log| ==> m.log[k] == n.log[m.startIndex - n.startIndex + k]
    ensures CheckPrevious(m, req) == CheckPrevious(n, req)
  {
    CheckExactly(n, req);
    CheckExactly(m, req);
  }

  /** Compaction to an index inside the log cannot be seen by the consistency check of a request from
      there on: it gives the same answer with the same hints. */
  lemma CompactionKeepsChecks(n: Node, index: nat, req: AppendRequest)
    requires WellFormed(n) && n.startIndex < index <= LastIndex(n) && index <= req.prevIndex
    ensures CheckPrevious(Compact(n, index), req) == CheckPrevious(n, req)
  {
    CompactInside(n, index);
    SameChecks(n, Compact(n, index), req);
  }

  /** So right at the watermark a request passes exactly with the term of the entry that was there. */
  lemma WatermarkTermExactly(n: Node, index: nat, req: AppendRequest)
    requires WellFormed(n) && n.startIndex < index <= LastIndex(n) && req.prevIndex == index
    ensures CheckPrevious(Compact(n, index), req).Consistent? <==>
            req.prevTerm == n.log[index - n.startIndex - 1].term
  {
    CompactionKeepsChecks(n, index, req);
    CheckExactly(n, req);
  }

  // ---------- where the watermark is forgotten ----------

  /** A leader that has compacted its whole log numbers its next entry from 1 again: appending a
      command keeps the log consecutive exactly when some entry is left or nothing was compacted. */
  lemma LeaderAppendKeepsExactly(n: Node, command: Command)
    requires WellFormed(n)
    ensures WellFormed(LeaderAppend(n, command)) <==> n.log != [] || n.startIndex == 0
  {
    var m := LeaderAppend(n, command);
    assert m.log[|n.log|].index == LastLogIndex(n.log) + 1;
  }

  predicate Settled(n: Node) {
    WellFormed(n) && n.lastApplied <= n.commitIndex <= LastIndex(n)
  }

  /** The entry contradicts none the node has committed. */
  predicate Respects(log: seq<LogEntry>, start: nat, commit: nat, e: LogEntry) {
    start < e.index <= commit && e.index <= start + |log| ==> log[e.index - start - 1].term == e.term
  }

  predicate AllRespect(n: Node, req: AppendRequest) {
    forall i :: 0 <= i < |req.entries| ==> Respects(n.log, n.startIndex, n.commitIndex, req.entries[i])
  }

  lemma AppendOneKeepsCommitted(log: seq<LogEntry>, start: nat, e: LogEntry, commit: nat)
    requires Contiguous(log, start) && e.index <= start + |log| + 1
    requires commit <= start + |log| && Respects(log, start, commit, e)
    ensures var after := AppendOne(log, start, e);
            && commit <= start + |after|
            && (forall j :: 0 <= j < |after| && start + j < commit ==> after[j] == log[j])
  {
    FindSlotContiguous(log, start, e.index);
  }

  lemma {:induction false} AppendAllKeepsCommitted(
      log: seq<LogEntry>, start: nat, entries: seq<LogEntry>, prev: nat, commit: nat)
    requires Contiguous(log, start) && Contiguous(entries, prev) && prev <= start + |log|
    requires commit <= start + |log|
    requires forall i :: 0 <= i < |entries| ==> Respects(log, start, commit, entries[i])
    ensures var after := AppendAll(log, start, entries);
            && commit <= start + |after|
            && (forall j :: 0 <= j < |after| && start + j < commit ==> after[j] == log[j])
    decreases |entries|
  {
    if entries == [] {
      assert AppendAll(log, start, entries) == log;
    } else {
      var k := |entries| - 1;
      var before := AppendAll(log, start, entries[..k]);
      AppendAllKeepsCommitted(log, start, entries[..k], prev, commit);
      AppendAllContiguous(log, start, entries[..k], prev);
      assert Respects(log, start, commit, entries[k]);
      AppendOneKeepsCommitted(before, start, entries[k], commit);
    }
  }

  // ---------- where an append ends the log, and when it fails ----------

  /** The entry disagrees with one the log holds at its index. */
  predicate Contradicts(log: seq<LogEntry>, start: nat, e: LogEntry) {
    start < e.index <= start + |log| && log[e.index - start - 1].term != e.term
  }

  predicate Conflicts(log: seq<LogEntry>, start: nat, entries: seq<LogEntry>) {
    exists i :: 0 <= i < |entries| && Contradicts(log, start, entries[i])
  }

  /** The last index after an append: a conflict ends the log with the request, otherwise the longer
      of the two stands. */
  function EndIndex(log: seq<LogEntry>, start: nat, entries: seq<LogEntry>, prev: nat): nat {
    if Conflicts(log, start, entries) || prev + |entries| > start + |log| then prev + |entries| else start + |log|
  }

  /** The longer log begins with the shorter one. */
  predicate Keeps(log: seq<LogEntry>, after: seq<LogEntry>) {
    |log| <= |after| && forall j :: 0 <= j < |log| ==> after[j] == log[j]
  }

  /** What an append makes of the log: where it ends, and that without a conflict all of it stays. */
  predicate Ended(log: seq<LogEntry>, start: nat, entries: seq<LogEntry>, prev: nat, after: seq<LogEntry>) {
    && Contiguous(after, start) && start + |after| == EndIndex(log, start, entries, prev)
    && (!Conflicts(log, start, entries) ==> Keeps(log, after))
  }

  lemma ConflictsNext(log: seq<LogEntry>, start: nat, shorter: seq<LogEntry>, e: LogEntry)
    ensures Conflicts(log, start, shorter + [e]) <==> Conflicts(log, start, shorter) || Contradicts(log, start, e)
  {
    var entries := shorter + [e];
    if Contradicts(log, start, e) {
      assert Contradicts(log, start, entries[|shorter|]);
    }
    if Conflicts(log, start, shorter) {
      var i :| 0 <= i < |shorter| && Contradicts(log, start, shorter[i]);
      assert Contradicts(log, start, entries[i]);
    }
  }

  lemma AppendOneEnd(log: seq<LogEntry>, start: nat, e: LogEntry)
    requires Contiguous(log, start) && e.index <= start + |log| + 1
    ensures var after := AppendOne(log, start, e);
            && Contiguous(after, start)
            && start + |after| ==
               (if Contradicts(log, start, e) || e.index > start + |log| then e.index else start + |log|)
            && (!Contradicts(log, start, e) ==> Keeps(log, after))
  {
    FindSlotContiguous(log, start, e.index);
  }

  lemma EndedNext(log: seq<LogEntry>, start: nat, shorter: seq<LogEntry>, prev: nat, before: seq<LogEntry>, e: LogEntry)
    requires Contiguous(log, start) && prev <= start + |log|
    requires Ended(log, start, shorter, prev, before) && e.index == prev + |shorter| + 1
    ensures Ended(log, start, shorter + [e], prev, AppendOne(before, start, e))
  {
    ConflictsNext(log, start, shorter, e);
    AppendOneEnd(before, start, e);
  }

  lemma {:induction false} AppendAllEnd(log: seq<LogEntry>, start: nat, entries: seq<LogEntry>, prev: nat)
    requires Contiguous(log, start) && Contiguous(entries, prev) && prev <= start + |log|
    ensures Ended(log, start, entries, prev, AppendAll(log, start, entries))
    decreases |entries|
  {
    if entries == [] {
      assert AppendAll(log, start, entries) == log;
    } else {
      var shorter, e := entries[..|entries| - 1], entries[|entries| - 1];
      AppendAllEnd(log, start, shorter, prev);
      EndedNext(log, start, shorter, prev, AppendAll(log, start, shorter), e);
      assert shorter + [e] == entries;
    }
  }

  /** The last index the commit clamp sees after the request's entries: 0 when the log is empty. */
  function ClampedEnd(n: Node, req: AppendRequest): nat {
    var end := EndIndex(n.log, n.startIndex, req.entries, req.prevIndex);
    if end == n.startIndex then 0 else end
  }

  /** The handler fails exactly when it accepts a request that announces a newer commit while that
      commit, or the end of the log as the clamp sees it, lies below what was already applied. */
  lemma AppendPanicsExactly(n: Node, req: AppendRequest)
    requires WellFormed(n) && Contiguous(req.entries, req.prevIndex)
    ensures HandleAppend(n, req).1.AppendPanic? <==>
            && req.term >= n.term && CheckPrevious(n, req).Consistent?
            && req.leaderCommit > n.commitIndex
            && (req.leaderCommit < n.lastApplied || ClampedEnd(n, req) < n.lastApplied)
  {
    if req.term >= n.term {
      var m := StepDown(n, req.term).(leader := req.leader);
      assert CheckPrevious(m, req) == CheckPrevious(n, req);
      if CheckPrevious(m, req).Consistent? {
        ConsistentStartsInside(m, req);
        AppendAllEnd(m.log, m.startIndex, req.entries, req.prevIndex);
        var after := AppendAll(m.log, m.startIndex, req.entries);
        assert LastLogIndex(after) == ClampedEnd(n, req);
        assert HandleAppend(n, req) == Commit(m.(log := after), req.leaderCommit);
      }
    }
  }

  /** On a settled node, a request that contradicts nothing committed fails exactly when the log is
      fully compacted, something was applied, no entry lies past the watermark, and the commit is
      newer. */
  lemma SettledAppendPanicsExactly(n: Node, req: AppendRequest)
    requires Settled(n) && Contiguous(req.entries, req.prevIndex) && AllRespect(n, req)
    requires req.term >= n.term && CheckPrevious(n, req).Consistent?
    ensures HandleAppend(n, req).1.AppendPanic? <==>
            && n.log == [] && n.lastApplied > 0
            && req.prevIndex + |req.entries| <= n.startIndex
            && req.leaderCommit > n.commitIndex
  {
    AppendPanicsExactly(n, req);
    ConsistentStartsInside(n, req);
    AppendAllEnd(n.log, n.startIndex, req.entries, req.prevIndex);
    AppendAllKeepsCommitted(n.log, n.startIndex, req.entries, req.prevIndex, n.commitIndex);
  }

  /** And such a node is reached: a blank node that installs a snapshot and then hears a heartbeat
      with a newer commit index fails. */
  lemma SnapshotThenHeartbeatPanics(id: string, leader: string, term: nat, lastIndex: nat, lastTerm: nat, commit: nat)
    requires 0 < lastIndex < commit && lastTerm <= term
    ensures var blank := Node(id, Follower, 0, "", "", [], 0, 0, 0, 0, []);
            var n := Run(blank, [Install(SnapshotRequest(term, leader, lastIndex, lastTerm), true)]);
            && Settled(n)
            && HandleAppend(n, AppendRequest(term, leader, lastIndex, lastTerm, [], commit)).1.AppendPanic?
  {
    var blank := Node(id, Follower, 0, "", "", [], 0, 0, 0, 0, []);
    var install := Install(SnapshotRequest(term, leader, lastIndex, lastTerm), true);
    assert [install][..0] == [] && Run(blank, []) == blank;
    assert Run(blank, [install]) == Take(blank, install);
    SettledAppendPanicsExactly(Take(blank, install), AppendRequest(term, leader, lastIndex, lastTerm, [], commit));
  }

  // ---------- what a commit applies ----------

  /** The commands at the positions from `a` up to `b`. */
  function CommandsIn(log: seq<LogEntry>, a: nat, b: nat): seq<Command>
    requires a <= b <= |log|
  {
    seq(b - a, i requires 0 <= i < b - a => log[a + i].command)
  }

  lemma CommandsHead(log: seq<LogEntry>, a: nat, b: nat)
    requires a < b <= |log|
    ensures CommandsIn(log, a, b) == [log[a].command] + CommandsIn(log, a + 1, b)
  {
  }

  /** On a consecutive log the collected commands are those of the segment. */
  lemma {:induction false} AvailableIs(log: seq<LogEntry>, start: nat, from: nat, last: nat)
    requires Contiguous(log, start) && start < from <= last + 1 && last <= start + |log|
    ensures Available(log, from, last) == CommandsIn(log, from - start - 1, last - start)
    decreases last + 1 - from
  {
    if from == last + 1 {
    } else {
      FindSlotContiguous(log, start, from);
      AvailableIs(log, start, from + 1, last);
      CommandsHead(log, from - start - 1, last - start);
    }
  }

  /** Once the watermark has overtaken what was applied, nothing more is collected. */
  lemma NoneAvailable(log: seq<LogEntry>, start: nat, from: nat, last: nat)
    requires Contiguous(log, start) && from <= start
    ensures Available(log, from, last) == []
  {
    FindSlotContiguous(log, start, from);
  }

  /** What a commit that advances and does not fail applies: all of the newly committed commands, or
      none at all when the watermark lies past what was applied before. */
  lemma CommitApplies(n: Node, leaderCommit: nat)
    requires WellFormed(n) && leaderCommit > n.commitIndex && !Commit(n, leaderCommit).1.AppendPanic?
    ensures var m := Commit(n, leaderCommit).0;
            if n.startIndex <= n.lastApplied
            then && m.lastApplied == m.commitIndex && n.lastApplied <= m.lastApplied <= n.startIndex + |n.log|
                 && m.applied ==
                    n.applied + CommandsIn(n.log, n.lastApplied - n.startIndex, m.lastApplied - n.startIndex)
            else m.lastApplied == n.lastApplied && m.applied == n.applied
  {
    var commit := Min(leaderCommit, LastLogIndex(n.log));
    if n.startIndex <= n.lastApplied {
      assert n.log == [] ==> commit == n.lastApplied == n.startIndex == 0;
      AvailableIs(n.log, n.startIndex, n.lastApplied + 1, commit);
    } else {
      NoneAvailable(n.log, n.startIndex, n.lastApplied + 1, commit);
    }
  }

  /** So everything committed is then applied exactly when the watermark was not past what was
      applied before, or the new commit index is no further. */
  lemma CommitCatchesUpExactly(n: Node, leaderCommit: nat)
    requires WellFormed(n) && leaderCommit > n.commitIndex && !Commit(n, leaderCommit).1.AppendPanic?
    ensures var m := Commit(n, leaderCommit).0;
            m.lastApplied == m.commitIndex <==> n.startIndex <= n.lastApplied || m.commitIndex == n.lastApplied
  {
    CommitApplies(n, leaderCommit);
  }

  /** Everything committed is applied, and the watermark is not past it. */
  predicate CaughtUp(n: Node) {
    WellFormed(n) && n.startIndex <= n.lastApplied == n.commitIndex
  }

  /** The steps that leave a node caught up: no append that fails, no compaction past what was applied,
      no restored snapshot older than the watermark. */
  predicate Prudent(n: Node, s: Step) {
    match s
    case Append(req) => !HandleAppend(n, req).1.AppendPanic?
    case CompactTo(index) => index <= n.lastApplied
    case RestoreFrom(lastIndex, _) => n.startIndex <= lastIndex
    case Install(req, restored) => req.term < n.term || !restored || n.startIndex <= req.lastIndex
    case Vote(_) => true
    case Elect => true
    case Conclude(_) => true
    case LoseContact => true
  }

  lemma AppendCatchesUpExactly(n: Node, req: AppendRequest)
    requires CaughtUp(n) && Contiguous(req.entries, req.prevIndex)
    ensures CaughtUp(HandleAppend(n, req).0) <==> !HandleAppend(n, req).1.AppendPanic?
  {
    HandleAppendKeeps(n, req);
    if req.term >= n.term && CheckPrevious(n, req).Consistent? {
      var m := StepDown(n, req.term).(leader := req.leader);
      assert CheckPrevious(m, req) == CheckPrevious(n, req);
      ConsistentStartsInside(m, req);
      AppendAllContiguous(m.log, m.startIndex, req.entries, req.prevIndex);
      var longer := m.(log := AppendAll(m.log, m.startIndex, req.entries));
      assert HandleAppend(n, req) == Commit(longer, req.leaderCommit);
      CommitKeepsLog(longer, req.leaderCommit);
      if req.leaderCommit > n.commitIndex && !HandleAppend(n, req).1.AppendPanic? {
        CommitApplies(longer, req.leaderCommit);
      }
    }
  }

  /** A caught-up node stays so exactly through the prudent steps. */
  lemma TakeCatchesUpExactly(n: Node, s: Step)
    requires CaughtUp(n) && Legal(s)
    ensures CaughtUp(Take(n, s)) <==> Prudent(n, s)
  {
    TakeKeeps(n, s);
    match s
    case Append(req) => AppendCatchesUpExactly(n, req);
    case CompactTo(_) =>
    case RestoreFrom(_, _) =>
    case Install(_, _) =>
    case Vote(_) =>
    case Elect =>
    case Conclude(_) =>
    case LoseContact =>
  }

  /** Over every run of prudent steps, whatever is committed is applied. */
  lemma {:induction false} RunCatchesUp(n: Node, steps: seq<Step>, i: nat)
    requires CaughtUp(n) && i <= |steps|
    requires forall k :: 0 <= k < i ==> Legal(steps[k]) && Prudent(Run(n, steps[..k]), steps[k])
    ensures CaughtUp(Run(n, steps[..i]))
    decreases i
  {
    if i == 0 {
      assert steps[..0] == [];
    } else {
      RunCatchesUp(n, steps, i - 1);
      assert steps[..i][..i - 1] == steps[..i - 1];
      TakeCatchesUpExactly(Run(n, steps[..i - 1]), steps[i - 1]);
    }
  }

  /** A node's own snapshot compacts through the last index it holds, applied or not: it stays caught up
      exactly when it has applied its whole log. */
  lemma OwnSnapshotCatchesUpExactly(n: Node)
    requires CaughtUp(n) && Settled(n)
    ensures CaughtUp(Take(n, CompactTo(LastIndex(n)))) <==> n.lastApplied == LastIndex(n)
  {
    TakeCatchesUpExactly(n, CompactTo(LastIndex(n)));
  }

  /** An imprudent step is possible: after a snapshot and an older one, a node commits the next entry
      without ever applying it. */
  lemma OlderSnapshotStalls(id: string, leader: string, term: nat, last: nat, older: nat, command: Command)
    requires older < last && term > 0
    ensures var blank := Node(id, Follower, 0, "", "", [], 0, 0, 0, 0, []);
            var entry := LogEntry(last + 1, term, command);
            var n := Take(Take(blank, Install(SnapshotRequest(term, leader, last, term), true)),
                          Install(SnapshotRequest(term, leader, older, term), true));
            var m := HandleAppend(n, AppendRequest(term, leader, last, term, [entry], last + 1)).0;
            m.log == [entry] && m.commitIndex == last + 1 && m.lastApplied == older && m.applied == []
  {
    var entry := LogEntry(last + 1, term, command);
    var n := Node(id, Follower, term, "", leader, [], last, term, older, older, []);
    var req := AppendRequest(term, leader, last, term, [entry], last + 1);
    assert [entry][..0] == [] && AppendAll([], last, []) == [];
    assert AppendAll([], last, [entry]) == [entry];
    CommitApplies(n.(log := [entry]), last + 1);
  }

  // ---------- settled runs ----------

  lemma {:induction false} AvailableLength(log: seq<LogEntry>, from: nat, last: nat)
    requires from <= last + 1
    ensures |Available(log, from, last)| <= last + 1 - from
    decreases last + 1 - from
  {
    if from == last + 1 {
    } else {
      AvailableLength(log, from + 1, last);
    }
  }

  lemma EntriesKeepSettled(n: Node, req: AppendRequest)
    requires Settled(n) && Contiguous(req.entries, req.prevIndex) && AllRespect(n, req)
    requires CheckPrevious(n, req).Consistent?
    ensures Settled(n.(log := AppendAll(n.log, n.startIndex, req.entries)))
  {
    ConsistentStartsInside(n, req);
    AppendAllEnd(n.log, n.startIndex, req.entries, req.prevIndex);
    AppendAllKeepsCommitted(n.log, n.startIndex, req.entries, req.prevIndex, n.commitIndex);
  }

  lemma AppendKeepsSettled(n: Node, req: AppendRequest)
    requires Settled(n) && Contiguous(req.entries, req.prevIndex) && AllRespect(n, req)
    requires !HandleAppend(n, req).1.AppendPanic?
    ensures Settled(HandleAppend(n, req).0)
  {
    HandleAppendKeeps(n, req);
    if req.term >= n.term && CheckPrevious(n, req).Consistent? {
      var m := StepDown(n, req.term).(leader := req.leader);
      assert CheckPrevious(m, req) == CheckPrevious(n, req);
      EntriesKeepSettled(m, req);
      CommitKeepsSettled(m.(log := AppendAll(m.log, m.startIndex, req.entries)), req.leaderCommit);
    }
  }

  lemma CommitKeepsSettled(n: Node, leaderCommit: nat)
    requires Settled(n) && !Commit(n, leaderCommit).1.AppendPanic?
    ensures Settled(Commit(n, leaderCommit).0)
  {
    if leaderCommit > n.commitIndex {
      AvailableLength(n.log, n.lastApplied + 1, Min(leaderCommit, LastLogIndex(n.log)));
    }
  }

  lemma CompactKeepsSettled(n: Node, index: nat)
    requires Settled(n)
    ensures Settled(Compact(n, index))
  {
    AboveContiguous(n.log, n.startIndex, index);
  }

  /** The step is no append that contradicts something committed, nor one that fails. */
  predicate Respectful(n: Node, s: Step) {
    Legal(s) && (s.Append? ==> AllRespect(n, s.append) && !HandleAppend(n, s.append).1.AppendPanic?)
  }

  lemma TakeKeepsSettled(n: Node, s: Step)
    requires Settled(n) && Respectful(n, s)
    ensures Settled(Take(n, s))
  {
    match s
    case Append(req) => AppendKeepsSettled(n, req);
    case CompactTo(index) => CompactKeepsSettled(n, index);
    case RestoreFrom(_, _) =>
    case Install(_, _) =>
    case Vote(_) =>
    case Elect =>
    case Conclude(_) =>
    case LoseContact =>
  }

  /** A settled node stays settled through every run whose appends contradict nothing committed, up
      to the first failure. */
  lemma {:induction false} RunKeepsSettled(n: Node, steps: seq<Step>, i: nat)
    requires Settled(n) && i <= |steps|
    requires forall k :: 0 <= k < i ==> Respectful(Run(n, steps[..k]), steps[k])
    ensures Settled(Run(n, steps[..i]))
    decreases i
  {
    if i == 0 {
      assert steps[..0] == [];
    } else {
      RunKeepsSettled(n, steps, i - 1);
      assert steps[..i][..i - 1] == steps[..i - 1];
      TakeKeepsSettled(Run(n, steps[..i - 1]), steps[i - 1]);
    }
  }
}
