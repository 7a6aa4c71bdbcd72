/** The node as the program keeps it: fields updated in place by each handler. Every method makes
    exactly the step that the model function describes, keeps the log consecutive past the watermark
    wherever that can be kept, and never takes back a term or a vote given to another node. */
module RaftNode {
  import opened Lexicographic
  import opened RaftModel
  import opened RaftVotes
  import opened RaftWatermark

  class Cluster {
    const id: string
    var role: Role
    var currentTerm: nat
    var votedFor: string
    var leaderId: string
    var log: seq<LogEntry>
    var logStartIndex: nat
    var logStartTerm: nat
    var commitIndex: nat
    var lastApplied: nat
    var applied: seq<Command>

    ghost function View(): Node
      reads this
    {
      Node(id, role, currentTerm, votedFor, leaderId, log, logStartIndex, logStartTerm,
           commitIndex, lastApplied, applied)
    }

    ghost predicate Valid()
      reads this
    {
      WellFormed(View())
    }

    constructor (nodeId: string)
      ensures Valid() && View() == Node(nodeId, Follower, 0, "", "", [], 0, 0, 0, 0, [])
    {
      id := nodeId;
      role, currentTerm, votedFor, leaderId := Follower, 0, "", "";
      log, logStartIndex, logStartTerm := [], 0, 0;
      commitIndex, lastApplied, applied := 0, 0, [];
    }

    /** Every step keeps faith, and a legal one keeps the object valid. */
    lemma StepKeeps(s: Step)
      ensures KeepsFaith(View(), Take(View(), s))
      ensures Valid() && Legal(s) ==> WellFormed(Take(View(), s))
    {
      TakeKeepsFaith(View(), s);
      if Valid() && Legal(s) {
        TakeKeeps(View(), s);
      }
    }

    method FindLogSlot(index: nat) returns (slot: int)
      ensures slot == FindSlot(log, index)
    {
      var lo, hi := 0, |log|;
      while lo < hi
        invariant 0 <= lo <= hi <= |log|
        invariant Search(log, index, 0, |log|) == Search(log, index, lo, hi)
      {
        var mid := lo + (hi - lo) / 2;
        if log[mid].index < index {
          lo := mid + 1;
        } else {
          hi := mid;
        }
      }
      slot := if lo < |log| && log[lo].index == index then lo else -1;
    }

    method HandleRequestVote(req: VoteRequest) returns (resp: VoteResponse)
      modifies this
      ensures (View(), resp) == HandleVote(old(View()), req)
      ensures (old(Valid()) ==> Valid()) && KeepsFaith(old(View()), View())
      ensures resp.granted ==> votedFor == req.candidate && currentTerm == req.term == resp.term
      ensures resp.granted <==>
              && req.term >= old(currentTerm)
              && VoteIsFree(old(View()), req)
              && (log != [] ==>
                    || req.lastLogTerm > log[|log| - 1].term
                    || (req.lastLogTerm == log[|log| - 1].term && req.lastLogIndex >= log[|log| - 1].index))
      ensures req.term > old(currentTerm) ==> role == Follower
      ensures resp.term == currentTerm && (!resp.granted ==> votedFor == "" || votedFor == old(votedFor))
    {
      TakeKeepsFaith(View(), Vote(req));
      if req.term < currentTerm {
        return VoteResponse(currentTerm, false);
      }
      if req.term > currentTerm {
        currentTerm, role, votedFor := req.term, Follower, "";
      }
      if votedFor == id && req.term == currentTerm && Less(id, req.candidate) {
        role, votedFor := Follower, "";
      }
      var myLastTerm := if |log| > 0 then log[|log| - 1].term else 0;
      var upToDate := if req.lastLogTerm != myLastTerm then req.lastLogTerm > myLastTerm
                      else req.lastLogIndex >= LastLogIndex(log);
      if (votedFor == "" || votedFor == req.candidate) && upToDate {
        votedFor := req.candidate;
        return VoteResponse(currentTerm, true);
      }
      resp := VoteResponse(currentTerm, false);
    }

    method BeginElection()
      modifies this
      ensures View() == StartElection(old(View()))
      ensures (old(Valid()) ==> Valid()) && KeepsFaith(old(View()), View())
      ensures forall term, candidate :: Pledged(View(), term, candidate) && term == currentTerm ==> candidate == id
    {
      TakeKeepsFaith(View(), Elect);
      role := Candidate;
      currentTerm := currentTerm + 1;
      votedFor := id;
    }

    method FinishElection(votes: nat, needed: nat)
      modifies this`role, this`leaderId
      ensures View() == ConcludeElection(old(View()), votes >= needed)
      ensures (old(Valid()) ==> Valid()) && KeepsFaith(old(View()), View())
      ensures role == Leader <==> old(role) == Leader || (old(role) == Candidate && votes >= needed)
      ensures role == Leader && old(role) != Leader ==> leaderId == id
    {
      StepKeeps(Conclude(votes >= needed));
      if role != Candidate {
        return;
      }
      if votes >= needed {
        role := Leader;
        leaderId := id;
      } else {
        role := Follower;
      }
    }

    /** The head of the heartbeat tick: a leader without quorum contact steps down. */
    method CheckQuorum(contact: bool)
      modifies this`role, this`leaderId
      ensures View() == if contact then old(View()) else LoseQuorum(old(View()))
      ensures (old(Valid()) ==> Valid()) && KeepsFaith(old(View()), View())
      ensures !contact ==> role != Leader && (old(role) == Leader ==> role == Follower && leaderId == "")
    {
      StepKeeps(LoseContact);
      if role == Leader && !contact {
        role, leaderId := Follower, "";
      }
    }

    /** The loop over the request's entries: skip what the snapshot covers, overwrite from the
        first conflicting term, append the rest. */
    method AppendEntries(entries: seq<LogEntry>)
      modifies this`log
      ensures log == AppendAll(old(log), logStartIndex, entries)
    {
      for i := 0 to |entries|
        invariant log == AppendAll(old(log), logStartIndex, entries[..i])
      {
        var entry := entries[i];
        assert entries[..i + 1][..i] == entries[..i];
        if entry.index <= logStartIndex {
          continue;
        }
        var slot := FindLogSlot(entry.index);
        if slot >= 0 {
          if log[slot].term != entry.term {
            log := log[..slot];
            log := log + [entry];
          }
        } else {
          log := log + [entry];
        }
      }
      assert entries[..|entries|] == entries;
    }

    /** The loop that gathers committed, unapplied commands and stops at the first missing index. */
    method CollectCommitted() returns (toApply: seq<Command>)
      ensures toApply == Available(log, lastApplied + 1, commitIndex)
    {
      toApply := [];
      var i := lastApplied + 1;
      ghost var all := Available(log, i, commitIndex);
      while i <= commitIndex
        invariant all == toApply + Available(log, i, commitIndex)
        decreases commitIndex + 1 - i
      {
        var slot := FindLogSlot(i);
        if slot < 0 {
          break;
        }
        ghost var rest := Available(log, i + 1, commitIndex);
        assert toApply + ([log[slot].command] + rest) == (toApply + [log[slot].command]) + rest;
        toApply := toApply + [log[slot].command];
        i := i + 1;
      }
    }

    method Apply(toApply: seq<Command>)
      modifies this`lastApplied, this`applied
      ensures applied == old(applied) + toApply && lastApplied == old(lastApplied) + |toApply|
    {
      for k := 0 to |toApply|
        invariant applied == old(applied) + toApply[..k] && lastApplied == old(lastApplied) + k
      {
        applied := applied + [toApply[k]];
        lastApplied := lastApplied + 1;
        assert toApply[..k + 1] == toApply[..k] + [toApply[k]];
      }
      assert toApply[..|toApply|] == toApply;
    }

    method AdvanceCommit(leaderCommit: nat) returns (resp: AppendResponse)
      modifies this`commitIndex, this`lastApplied, this`applied
      ensures (View(), resp) == Commit(old(View()), leaderCommit)
    {
      if leaderCommit > commitIndex {
        var lastNewIndex := LastLogIndex(log);
        commitIndex := if lastNewIndex < leaderCommit then lastNewIndex else leaderCommit;
        if commitIndex < lastApplied {
          return AppendPanic;
        }
        var toApply := CollectCommitted();
        Apply(toApply);
      }
      resp := AppendResponse(currentTerm, true, 0, 0);
    }

    method LastIndexLocked() returns (index: nat)
      ensures index == LastIndex(View())
    {
      index := if |log| == 0 then logStartIndex else log[|log| - 1].index;
    }

    method CheckLog(req: AppendRequest) returns (answer: Consistency)
      ensures answer == CheckPrevious(View(), req)
    {
      if req.prevIndex == 0 {
        return Consistent;
      }
      var last := LastIndexLocked();
      if req.prevIndex <= logStartIndex {
        if req.prevIndex == logStartIndex && req.prevTerm != logStartTerm {
          return Conflict(logStartIndex, logStartTerm);
        }
      } else if req.prevIndex > last {
        return Conflict(last, 0);
      } else {
        var slot := FindLogSlot(req.prevIndex);
        if slot < 0 {
          return Conflict(last, 0);
        }
        if log[slot].term != req.prevTerm {
          return Conflict(req.prevIndex, log[slot].term);
        }
      }
      answer := Consistent;
    }

    method HandleAppendEntries(req: AppendRequest) returns (resp: AppendResponse)
      modifies this
      ensures (View(), resp) == HandleAppend(old(View()), req)
      ensures (old(Valid()) && Contiguous(req.entries, req.prevIndex) ==> Valid()) && KeepsFaith(old(View()), View())
      ensures req.term >= old(currentTerm) ==> leaderId == req.leader && currentTerm == req.term
      ensures role == if req.term > old(currentTerm) then Follower else old(role)
    {
      StepKeeps(Append(req));
      if req.term < currentTerm {
        return AppendResponse(currentTerm, false, 0, 0);
      }
      if req.term > currentTerm {
        currentTerm, role, votedFor := req.term, Follower, "";
      }
      leaderId := req.leader;
      var answer := CheckLog(req);
      if answer.Conflict? {
        return AppendResponse(currentTerm, false, answer.index, answer.term);
      }
      AppendEntries(req.entries);
      resp := AdvanceCommit(req.leaderCommit);
    }

    method AppendCommand(command: Command)
      modifies this`log
      ensures View() == LeaderAppend(old(View()), command)
      ensures old(Valid()) ==> (Valid() <==> old(log) != [] || logStartIndex == 0)
    {
      ghost var before := View();
      log := log + [LogEntry(LastLogIndex(log) + 1, currentTerm, command)];
      if WellFormed(before) {
        LeaderAppendKeepsExactly(before, command);
      }
    }

    method CompactLog(compactIndex: nat)
      modifies this`log, this`logStartIndex, this`logStartTerm
      ensures View() == Compact(old(View()), compactIndex)
      ensures (old(Valid()) ==> Valid()) && KeepsFaith(old(View()), View())
    {
      StepKeeps(CompactTo(compactIndex));
      var startTerm := 0;
      var slot := FindLogSlot(compactIndex);
      if slot >= 0 {
        startTerm := log[slot].term;
      }
      var newLog := [];
      for i := 0 to |log|
        invariant newLog == Above(log[..i], compactIndex)
      {
        assert log[..i + 1][..i] == log[..i];
        if log[i].index > compactIndex {
          newLog := newLog + [log[i]];
        }
      }
      assert log[..|log|] == log;
      log := newLog;
      if compactIndex > logStartIndex {
        logStartIndex := compactIndex;
        logStartTerm := startTerm;
      }
    }

    method RestoreSnapshot(lastIndex: nat, lastTerm: nat)
      modifies this
      ensures View() == Restore(old(View()), lastIndex, lastTerm)
      ensures Settled(View()) && KeepsFaith(old(View()), View())
      ensures log == [] && applied == [] && commitIndex == lastApplied == lastIndex
      ensures role == old(role) && currentTerm >= lastTerm
    {
      StepKeeps(RestoreFrom(lastIndex, lastTerm));
      log, applied := [], [];
      if lastIndex > logStartIndex {
        logStartIndex, logStartTerm := lastIndex, lastTerm;
      }
      commitIndex, lastApplied := lastIndex, lastIndex;
      if lastTerm > currentTerm {
        currentTerm := lastTerm;
      }
    }

    method HandleInstallSnapshot(req: SnapshotRequest, restored: bool) returns (resp: SnapshotResponse)
      modifies this
      ensures (View(), resp) == HandleSnapshot(old(View()), req, restored)
      ensures (old(Valid()) ==> Valid()) && KeepsFaith(old(View()), View())
      ensures resp.term == currentTerm && (resp.success <==> restored && req.term >= old(currentTerm))
      ensures resp.success ==> Settled(View()) && commitIndex == lastApplied == req.lastIndex
      ensures req.term >= old(currentTerm) ==> leaderId == req.leader
      ensures role == if req.term > old(currentTerm) then Follower else old(role)
    {
      StepKeeps(Install(req, restored));
      if req.term < currentTerm {
        return SnapshotResponse(currentTerm, false);
      }
      if req.term > currentTerm {
        currentTerm, role, votedFor := req.term, Follower, "";
      }
      leaderId := req.leader;
      if !restored {
        return SnapshotResponse(currentTerm, false);
      }
      RestoreSnapshot(req.lastIndex, req.lastTerm);
      resp := SnapshotResponse(currentTerm, true);
    }
  }
}
