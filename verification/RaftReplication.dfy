/** Replication under one leader. The leader's log only grows; what it sends are slices of that log,
    and the network may lose, repeat and reorder them. Followers start with arbitrary leftovers of
    earlier terms, as long as those satisfy Log Matching (section 5.3 of the Raft paper).
    Logs here are uncompacted: entry `i` of a log sits at position `i - 1`. */
module RaftReplication {
  import opened Collections
  import opened RaftModel
  import opened RaftWatermark

  // ---------- what relates a follower to the leader's log ----------

  /** Equal terms at a position mean equal logs up to it. */
  predicate LogMatching(log: seq<LogEntry>, leader: seq<LogEntry>) {
    forall i :: 0 <= i < |log| && i < |leader| && log[i].term == leader[i].term ==> AgreeTo(log, leader, i + 1)
  }

  /** Only the leader creates entries of its term. */
  predicate OwnsTerm(log: seq<LogEntry>, leader: seq<LogEntry>, term: nat) {
    forall i :: 0 <= i < |log| && log[i].term == term ==> i < |leader| && leader[i].term == term
  }

  /** Entries are created in positive terms, no later than the bound, and terms never go back. */
  predicate TermsOk(log: seq<LogEntry>, bound: nat) {
    && (forall i :: 0 <= i < |log| ==> 1 <= log[i].term <= bound)
    && (forall i, j :: 0 <= i < j < |log| ==> log[i].term <= log[j].term)
  }

  predicate AgreeTo(log: seq<LogEntry>, leader: seq<LogEntry>, k: nat) {
    k <= |log| && k <= |leader| && forall j :: 0 <= j < k ==> log[j] == leader[j]
  }

  /** A log that a leader of the term may find on a follower. */
  predicate LogOk(log: seq<LogEntry>, leader: seq<LogEntry>, term: nat) {
    Contiguous(log, 0) && TermsOk(log, term) && LogMatching(log, leader) && OwnsTerm(log, leader, term)
  }

  predicate FollowerOk(n: Node, leader: seq<LogEntry>, term: nat) {
    && n.startIndex == 0 && WellFormed(n) && TermsOk(n.log, n.term)
    && LogMatching(n.log, leader) && OwnsTerm(n.log, leader, term)
    && AgreeTo(n.log, leader, n.commitIndex)
    && n.lastApplied <= n.commitIndex
    && n.applied == CommandsIn(leader, 0, n.lastApplied)
  }

  predicate LeaderLogOk(leader: seq<LogEntry>, term: nat) {
    Contiguous(leader, 0) && TermsOk(leader, term)
  }

  /** The request carries the slice of the leader's log that follows `prevIndex`. */
  predicate IsSlice(req: AppendRequest, leader: seq<LogEntry>, term: nat) {
    && req.term == term
    && req.prevIndex + |req.entries| <= |leader|
    && req.entries == leader[req.prevIndex..req.prevIndex + |req.entries|]
    && (req.prevIndex > 0 ==> req.prevTerm == leader[req.prevIndex - 1].term)
  }

  /** A follower that agrees with the leader up to `r` may hold an entry of an earlier leader there:
      some term is no lower than the entry before, below the leader's, and not that of its own entry. */
  predicate StaleRoom(leader: seq<LogEntry>, term: nat, r: nat)
    requires r < |leader|
  {
    var least := LeastTerm(leader, r);
    least < term && !(least == term - 1 && leader[r].term == least)
  }

  function LeastTerm(leader: seq<LogEntry>, r: nat): nat
    requires r <= |leader|
  {
    if r == 0 then 1 else leader[r - 1].term
  }

  /** The commit index it advertises is covered by what it establishes, or nothing stale fits in
      between. */
  predicate CommitSafe(req: AppendRequest, leader: seq<LogEntry>, term: nat) {
    && req.leaderCommit <= |leader|
    && forall r :: req.prevIndex + |req.entries| <= r < req.leaderCommit ==> !StaleRoom(leader, term, r)
  }

  // ---------- one entry, then one slice ----------

  lemma PrefixOk(leader: seq<LogEntry>, term: nat, k: nat)
    requires LeaderLogOk(leader, term) && k <= |leader|
    ensures LogOk(leader[..k], leader, term) && AgreeTo(leader[..k], leader, k)
  {
  }

  /** The leader's next entry is skipped where the follower has it, and otherwise ends the log. */
  lemma AppendIs(log: seq<LogEntry>, leader: seq<LogEntry>, q: nat)
    requires Contiguous(log, 0) && Contiguous(leader, 0) && q < |leader| && AgreeTo(log, leader, q)
    ensures AppendOne(log, 0, leader[q]) ==
            if q < |log| && log[q].term == leader[q].term then log else leader[..q + 1]
  {
    FindSlotContiguous(log, 0, q + 1);
    assert log[..q] == leader[..q];
  }

  lemma AppendNext(log: seq<LogEntry>, leader: seq<LogEntry>, term: nat, q: nat, k: nat)
    requires LogOk(log, leader, term) && LeaderLogOk(leader, term)
    requires q < |leader| && AgreeTo(log, leader, q)
    ensures var after := AppendOne(log, 0, leader[q]);
            && LogOk(after, leader, term) && AgreeTo(after, leader, q + 1)
            && (AgreeTo(log, leader, k) ==> AgreeTo(after, leader, k))
  {
    AppendIs(log, leader, q);
    if q < |log| && log[q].term == leader[q].term {
      assert AgreeTo(log, leader, q + 1);
    } else {
      PrefixOk(leader, term, q + 1);
    }
  }

  lemma {:induction false} AppendSlice(
      log: seq<LogEntry>, leader: seq<LogEntry>, term: nat, p: nat, n: nat, k: nat, slice: seq<LogEntry>)
    requires LogOk(log, leader, term) && LeaderLogOk(leader, term)
    requires p + n <= |leader| && AgreeTo(log, leader, p) && slice == leader[p..p + n]
    ensures var after := AppendAll(log, 0, slice);
            && LogOk(after, leader, term) && AgreeTo(after, leader, p + n)
            && (AgreeTo(log, leader, k) ==> AgreeTo(after, leader, k))
    decreases n
  {
    if n == 0 {
    } else {
      var shorter, q := slice[..n - 1], p + n - 1;
      assert shorter == leader[p..q] && slice[n - 1] == leader[q];
      AppendSlice(log, leader, term, p, n - 1, k, shorter);
      AppendNext(AppendAll(log, 0, shorter), leader, term, q, k);
    }
  }

  /** Passing the consistency check means agreeing with the leader up to the previous index. */
  lemma ConsistentAgrees(n: Node, req: AppendRequest, leader: seq<LogEntry>)
    requires n.startIndex == 0 && WellFormed(n) && LogMatching(n.log, leader)
    requires IsSlice(req, leader, req.term) && CheckPrevious(n, req).Consistent?
    ensures AgreeTo(n.log, leader, req.prevIndex)
  {
    if req.prevIndex > 0 {
      FindSlotContiguous(n.log, 0, req.prevIndex);
      assert n.log[req.prevIndex - 1].term == leader[req.prevIndex - 1].term;
    }
  }

  lemma CommandsSplit(log: seq<LogEntry>, leader: seq<LogEntry>, a: nat, b: nat)
    requires a <= b && AgreeTo(log, leader, b)
    ensures CommandsIn(leader, 0, b) == CommandsIn(leader, 0, a) + CommandsIn(log, a, b)
  {
    var whole, head, tail := CommandsIn(leader, 0, b), CommandsIn(leader, 0, a), CommandsIn(log, a, b);
    assert forall i :: a <= i < b ==> whole[i] == tail[i - a];
  }

  /** Where nothing stale fits, agreement goes on as far as the follower's log does. */
  lemma {:induction false} AgreesFurther(log: seq<LogEntry>, leader: seq<LogEntry>, term: nat, q: nat, commit: nat)
    requires LogOk(log, leader, term) && LeaderLogOk(leader, term) && AgreeTo(log, leader, q)
    requires q <= commit <= |leader| && forall r :: q <= r < commit ==> !StaleRoom(leader, term, r)
    ensures AgreeTo(log, leader, Min(commit, |log|))
    decreases commit
  {
    if q == commit {
    } else {
      var r := commit - 1;
      AgreesFurther(log, leader, term, q, r);
      if r < |log| {
        assert !StaleRoom(leader, term, r);
        assert log[r].term >= LeastTerm(leader, r);
        assert log[r].term == leader[r].term;
      }
    }
  }

  /** Committing up to an index the logs agree on applies exactly the leader's next commands. */
  lemma CommitAgreed(n: Node, leader: seq<LogEntry>, term: nat, leaderCommit: nat)
    requires FollowerOk(n, leader, term)
    requires AgreeTo(n.log, leader, Min(leaderCommit, |n.log|))
    ensures var (m, resp) := Commit(n, leaderCommit);
            && FollowerOk(m, leader, term) && resp == AppendResponse(n.term, true, 0, 0)
            && m.lastApplied >= n.lastApplied
            && m.commitIndex == (if leaderCommit > n.commitIndex then Min(leaderCommit, |n.log|) else n.commitIndex)
  {
    if leaderCommit > n.commitIndex {
      assert LastLogIndex(n.log) == |n.log|;
      CommitApplies(n, leaderCommit);
      CommandsSplit(n.log, leader, n.lastApplied, Min(leaderCommit, |n.log|));
    }
  }

  lemma SliceKeeps(n: Node, req: AppendRequest, leader: seq<LogEntry>, term: nat, log: seq<LogEntry>)
    requires LeaderLogOk(leader, term) && FollowerOk(n, leader, term) && log == AppendAll(n.log, 0, req.entries)
    requires IsSlice(req, leader, term) && CheckPrevious(n, req).Consistent? && n.term == term
    ensures FollowerOk(n.(log := log), leader, term) && LogOk(log, leader, term)
    ensures AgreeTo(log, leader, req.prevIndex + |req.entries|)
  {
    ConsistentAgrees(n, req, leader);
    AppendSlice(n.log, leader, term, req.prevIndex, |req.entries|, n.commitIndex, req.entries);
  }

  lemma AcceptKeeps(n: Node, req: AppendRequest, leader: seq<LogEntry>, term: nat)
    requires LeaderLogOk(leader, term) && FollowerOk(n, leader, term) && n.term == term
    requires IsSlice(req, leader, term) && CommitSafe(req, leader, term) && CheckPrevious(n, req).Consistent?
    ensures var (m, resp) := Commit(n.(log := AppendAll(n.log, 0, req.entries)), req.leaderCommit);
            && FollowerOk(m, leader, term) && resp == AppendResponse(n.term, true, 0, 0)
            && AgreeTo(m.log, leader, req.prevIndex + |req.entries|)
            && m.lastApplied >= n.lastApplied && m.commitIndex >= n.commitIndex
            && m.commitIndex >= Min(req.leaderCommit, |m.log|)
  {
    var log, q := AppendAll(n.log, 0, req.entries), req.prevIndex + |req.entries|;
    SliceKeeps(n, req, leader, term, log);
    var m := n.(log := log);
    if q < req.leaderCommit {
      AgreesFurther(log, leader, term, q, req.leaderCommit);
    }
    CommitAgreed(m, leader, term, req.leaderCommit);
    CommitKeepsLog(m, req.leaderCommit);
  }

  /** A follower that has moved on: still in order, and no index has gone back. */
  predicate Advanced(n: Node, m: Node, leader: seq<LogEntry>, term: nat) {
    FollowerOk(m, leader, term) && m.commitIndex >= n.commitIndex && m.lastApplied >= n.lastApplied
  }

  lemma AnswerKeeps(n: Node, req: AppendRequest, leader: seq<LogEntry>, term: nat)
    requires LeaderLogOk(leader, term) && FollowerOk(n, leader, term)
    requires IsSlice(req, leader, term) && CommitSafe(req, leader, term)
    ensures var (m, resp) := HandleAppend(n, req);
            && Advanced(n, m, leader, term) && !resp.AppendPanic?
            && (resp.success ==> AgreeTo(m.log, leader, req.prevIndex + |req.entries|)
                                 && m.commitIndex >= Min(req.leaderCommit, |m.log|))
  {
    if req.term >= n.term {
      var m := StepDown(n, req.term).(leader := req.leader);
      StepDownKeeps(n, req, leader, term);
      if CheckPrevious(m, req).Consistent? {
        AcceptKeeps(m, req, leader, term);
      }
    }
  }

  /** One delivery: the follower keeps Log Matching and agreement on what is committed, its commit
      and applied indices only grow, and the handler does not fail. */
  lemma DeliveryKeeps(n: Node, req: AppendRequest, leader: seq<LogEntry>, term: nat)
    requires LeaderLogOk(leader, term) && FollowerOk(n, leader, term)
    requires IsSlice(req, leader, term) && CommitSafe(req, leader, term)
    ensures var (m, resp) := HandleAppend(n, req);
            && Advanced(n, m, leader, term) && !resp.AppendPanic?
            && n.applied <= m.applied
            && (resp.success ==> AgreeTo(m.log, leader, req.prevIndex + |req.entries|)
                                 && m.commitIndex >= Min(req.leaderCommit, |m.log|))
  {
    AnswerKeeps(n, req, leader, term);
    PrefixOfCommands(leader, n.lastApplied, HandleAppend(n, req).0.lastApplied);
  }

  lemma StepDownKeeps(n: Node, req: AppendRequest, leader: seq<LogEntry>, term: nat)
    requires FollowerOk(n, leader, term) && req.term >= n.term
    ensures FollowerOk(StepDown(n, req.term).(leader := req.leader), leader, term)
  {
  }

  lemma PrefixOfCommands(leader: seq<LogEntry>, a: nat, b: nat)
    requires a <= b <= |leader|
    ensures CommandsIn(leader, 0, a) <= CommandsIn(leader, 0, b)
  {
  }

  // ---------- the exact bound on the advertised commit ----------

  /** The clamp uses the follower's last index instead of the last new one. So a slice is safe for
      every follower exactly when its commit index is covered by the slice itself or no earlier
      leader can have left an entry in between; otherwise a follower that holds such an entry
      commits it. */
  lemma SafeForAllExactly(req: AppendRequest, leader: seq<LogEntry>, term: nat)
    requires LeaderLogOk(leader, term)
    requires IsSlice(req, leader, term) && req.leaderCommit <= |leader|
    ensures (forall n: Node :: FollowerOk(n, leader, term) && n.term <= term ==>
              AgreeTo(HandleAppend(n, req).0.log, leader, HandleAppend(n, req).0.commitIndex))
            <==> CommitSafe(req, leader, term)
  {
    if CommitSafe(req, leader, term) {
      forall n: Node | FollowerOk(n, leader, term) && n.term <= term
        ensures AgreeTo(HandleAppend(n, req).0.log, leader, HandleAppend(n, req).0.commitIndex)
      {
        DeliveryKeeps(n, req, leader, term);
      }
    } else {
      var r :| req.prevIndex + |req.entries| <= r < req.leaderCommit && StaleRoom(leader, term, r);
      StaleFollowerDiverges(req, leader, term, r);
    }
  }

  /** There is room for a stale entry exactly when some term fits. */
  lemma StaleRoomExactly(leader: seq<LogEntry>, term: nat, r: nat)
    requires LeaderLogOk(leader, term) && r < |leader|
    ensures StaleRoom(leader, term, r) <==>
            exists t :: Fits(leader, term, r, t)
  {
    if StaleRoom(leader, term, r) {
      assert Fits(leader, term, r, StaleTerm(leader, r));
    }
  }

  predicate Fits(leader: seq<LogEntry>, term: nat, r: nat, t: nat)
    requires r < |leader|
  {
    LeastTerm(leader, r) <= t < term && t != leader[r].term
  }

  function StaleTerm(leader: seq<LogEntry>, r: nat): nat
    requires r < |leader|
  {
    if LeastTerm(leader, r) != leader[r].term then LeastTerm(leader, r) else LeastTerm(leader, r) + 1
  }

  /** A follower that agrees with the leader up to `r` and holds one entry of an earlier term there. */
  function StaleFollower(leader: seq<LogEntry>, term: nat, r: nat): Node
    requires r < |leader| && StaleRoom(leader, term, r)
  {
    var stale := LogEntry(r + 1, StaleTerm(leader, r), "stale");
    Node("f", Follower, term, "", "", leader[..r] + [stale], 0, 0, 0, 0, [])
  }

  lemma StaleLogOk(log: seq<LogEntry>, leader: seq<LogEntry>, term: nat, r: nat)
    requires LeaderLogOk(leader, term) && r < |leader| && |log| == r + 1 && AgreeTo(log, leader, r)
    requires log[r].index == r + 1 && log[r].term != leader[r].term
    requires 1 <= LeastTerm(leader, r) <= log[r].term < term
    ensures LogOk(log, leader, term)
  {
  }

  lemma StaleFollowerOk(req: AppendRequest, leader: seq<LogEntry>, term: nat, r: nat)
    requires LeaderLogOk(leader, term) && IsSlice(req, leader, term)
    requires req.prevIndex + |req.entries| <= r < |leader| && StaleRoom(leader, term, r)
    ensures var n := StaleFollower(leader, term, r);
            FollowerOk(n, leader, term) && AgreeTo(n.log, leader, r) && CheckPrevious(n, req).Consistent?
  {
    var n := StaleFollower(leader, term, r);
    StaleLogOk(n.log, leader, term, r);
    FindSlotContiguous(n.log, 0, req.prevIndex);
  }

  /** A follower that holds the whole of a request only moves its commit index for it. */
  lemma HeldRequestCommits(n: Node, req: AppendRequest, leader: seq<LogEntry>)
    requires n.term == req.term && n.startIndex == 0
    requires Contiguous(n.log, 0) && Contiguous(leader, 0) && IsSlice(req, leader, req.term)
    requires AgreeTo(n.log, leader, req.prevIndex + |req.entries|) && CheckPrevious(n, req).Consistent?
    ensures HandleAppend(n, req) == Commit(n.(leader := req.leader), req.leaderCommit)
  {
    HeldSliceUnchanged(n.log, leader, req.prevIndex, |req.entries|, req.entries);
    assert CheckPrevious(n.(leader := req.leader), req).Consistent?;
  }

  lemma StaleFollowerDiverges(req: AppendRequest, leader: seq<LogEntry>, term: nat, r: nat)
    requires LeaderLogOk(leader, term) && IsSlice(req, leader, term)
    requires req.prevIndex + |req.entries| <= r < req.leaderCommit <= |leader| && StaleRoom(leader, term, r)
    ensures var n := StaleFollower(leader, term, r);
            && FollowerOk(n, leader, term)
            && !AgreeTo(HandleAppend(n, req).0.log, leader, HandleAppend(n, req).0.commitIndex)
  {
    var n := StaleFollower(leader, term, r);
    StaleFollowerOk(req, leader, term, r);
    HeldRequestCommits(n, req, leader);
    var m := n.(leader := req.leader);
    CommitKeepsLog(m, req.leaderCommit);
    assert LastLogIndex(m.log) == r + 1;
    assert m.log[r] != leader[r];
  }

  /** A request that ends with an entry of the leader's own term, as every replicated command does,
      is safe whatever commit index it carries. */
  lemma OwnTermIsSafe(req: AppendRequest, leader: seq<LogEntry>, term: nat)
    requires LeaderLogOk(leader, term) && IsSlice(req, leader, term) && req.leaderCommit <= |leader|
    requires req.prevIndex + |req.entries| > 0 && leader[req.prevIndex + |req.entries| - 1].term == term
    ensures CommitSafe(req, leader, term)
  {
    var q := req.prevIndex + |req.entries|;
    forall r | q <= r < req.leaderCommit ensures !StaleRoom(leader, term, r) {
      assert leader[q - 1].term <= leader[r - 1].term;
    }
  }

  lemma {:induction false} HeldSliceUnchanged(
      log: seq<LogEntry>, leader: seq<LogEntry>, p: nat, n: nat, slice: seq<LogEntry>)
    requires Contiguous(log, 0) && Contiguous(leader, 0) && AgreeTo(log, leader, p + n)
    requires |slice| == n && forall i :: 0 <= i < n ==> slice[i] == leader[p + i]
    ensures AppendAll(log, 0, slice) == log
    decreases n
  {
    if n == 0 {
    } else {
      HeldSliceUnchanged(log, leader, p, n - 1, slice[..n - 1]);
      FindSlotContiguous(log, 0, p + n);
    }
  }

  // ---------- whole runs ----------

  /** One leader, any number of followers, and every append request ever sent. */
  datatype World = World(
    term: nat, leader: seq<LogEntry>, followers: map<string, Node>, sent: set<AppendRequest>)

  datatype Event =
    | Propose(command: Command)
    | Send(req: AppendRequest)
    | Deliver(to: string, message: AppendRequest)
    | AskVote(of: string, vote: VoteRequest)
    | TimeOut(who: string)

  predicate Possible(w: World, e: Event) {
    match e
    case Propose(_) => true
    case Send(req) => IsSlice(req, w.leader, w.term) && CommitSafe(req, w.leader, w.term)
    case Deliver(to, req) => to in w.followers && req in w.sent
    case AskVote(of, _) => of in w.followers
    case TimeOut(who) => who in w.followers
  }

  function Next(w: World, e: Event): World
    requires Possible(w, e)
  {
    match e
    case Propose(command) =>
      w.(leader := w.leader + [LogEntry(|w.leader| + 1, w.term, command)])
    case Send(req) => w.(sent := w.sent + {req})
    case Deliver(to, req) =>
      w.(followers := w.followers[to := HandleAppend(w.followers[to], req).0])
    case AskVote(of, vote) =>
      w.(followers := w.followers[of := HandleVote(w.followers[of], vote).0])
    case TimeOut(who) =>
      w.(followers := w.followers[who := StartElection(w.followers[who])])
  }

  predicate Safe(w: World) {
    && w.term >= 1 && LeaderLogOk(w.leader, w.term)
    && (forall f :: f in w.followers ==> FollowerOk(w.followers[f], w.leader, w.term))
    && (forall req :: req in w.sent ==> IsSlice(req, w.leader, w.term) && CommitSafe(req, w.leader, w.term))
  }

  predicate IsRun(worlds: seq<World>, events: seq<Event>) {
    && |worlds| == |events| + 1
    && forall i :: 0 <= i < |events| ==>
         Possible(worlds[i], events[i]) && worlds[i + 1] == Next(worlds[i], events[i])
  }

  /** Follower `f` has only moved forward from `v` to `w`. */
  predicate Forward(v: World, w: World, f: string) {
    && f in v.followers && f in w.followers
    && v.followers[f].commitIndex <= w.followers[f].commitIndex
    && v.followers[f].lastApplied <= w.followers[f].lastApplied
    && v.followers[f].applied <= w.followers[f].applied
  }

  /** A leader's handling of a command is the proposal of the runs below. */
  lemma LeaderAppendProposes(w: World, n: Node, command: Command)
    requires LeaderLogOk(w.leader, w.term) && n.log == w.leader && n.term == w.term
    ensures LeaderAppend(n, command) == n.(log := Next(w, Propose(command)).leader)
  {
  }

  lemma ProposeKeepsFollower(n: Node, leader: seq<LogEntry>, term: nat, e: LogEntry)
    requires FollowerOk(n, leader, term) && e.term == term && e.index == |leader| + 1
    ensures FollowerOk(n, leader + [e], term)
  {
    var grown := leader + [e];
    assert CommandsIn(grown, 0, n.lastApplied) == CommandsIn(leader, 0, n.lastApplied);
  }

  lemma GrowthKeepsSafe(req: AppendRequest, leader: seq<LogEntry>, term: nat, e: LogEntry)
    requires IsSlice(req, leader, term) && CommitSafe(req, leader, term)
    ensures IsSlice(req, leader + [e], term) && CommitSafe(req, leader + [e], term)
  {
    var grown := leader + [e];
    forall r | req.prevIndex + |req.entries| <= r < req.leaderCommit ensures !StaleRoom(grown, term, r) {
      assert !StaleRoom(leader, term, r);
    }
  }

  lemma ProposeKeepsSafe(w: World, command: Command)
    requires Safe(w)
    ensures Safe(Next(w, Propose(command)))
  {
    var e := LogEntry(|w.leader| + 1, w.term, command);
    forall f | f in w.followers ensures FollowerOk(w.followers[f], w.leader + [e], w.term) {
      ProposeKeepsFollower(w.followers[f], w.leader, w.term, e);
    }
    forall req | req in w.sent ensures IsSlice(req, w.leader + [e], w.term) && CommitSafe(req, w.leader + [e], w.term) {
      GrowthKeepsSafe(req, w.leader, w.term, e);
    }
  }

  /** What a follower may change without any effect on replication. */
  predicate SameLog(n: Node, m: Node) {
    && m.log == n.log && m.startIndex == n.startIndex && m.term >= n.term
    && m.commitIndex == n.commitIndex && m.lastApplied == n.lastApplied && m.applied == n.applied
  }

  lemma SameLogOk(n: Node, m: Node, leader: seq<LogEntry>, term: nat)
    requires FollowerOk(n, leader, term) && SameLog(n, m)
    ensures FollowerOk(m, leader, term)
  {
  }

  lemma VoteKeepsLog(n: Node, vote: VoteRequest)
    ensures SameLog(n, HandleVote(n, vote).0) && SameLog(n, StartElection(n))
  {
  }

  lemma FollowerReplaced(w: World, f: string, n: Node)
    requires Safe(w) && f in w.followers && FollowerOk(n, w.leader, w.term)
    requires w.followers[f].commitIndex <= n.commitIndex && w.followers[f].lastApplied <= n.lastApplied
    requires w.followers[f].applied <= n.applied
    ensures var v := w.(followers := w.followers[f := n]);
            Safe(v) && forall g :: g in w.followers ==> Forward(w, v, g)
  {
  }

  lemma NextKeepsSafe(w: World, e: Event)
    requires Safe(w) && Possible(w, e)
    ensures Safe(Next(w, e))
    ensures forall f :: f in w.followers ==> Forward(w, Next(w, e), f)
  {
    match e
    case Propose(command) => ProposeKeepsSafe(w, command);
    case Send(req) =>
    case Deliver(to, req) =>
      DeliveryKeeps(w.followers[to], req, w.leader, w.term);
      FollowerReplaced(w, to, HandleAppend(w.followers[to], req).0);
    case AskVote(of, vote) =>
      VoteKeepsLog(w.followers[of], vote);
      SameLogOk(w.followers[of], HandleVote(w.followers[of], vote).0, w.leader, w.term);
      FollowerReplaced(w, of, HandleVote(w.followers[of], vote).0);
    case TimeOut(who) =>
      SameLogOk(w.followers[who], StartElection(w.followers[who]), w.leader, w.term);
      FollowerReplaced(w, who, StartElection(w.followers[who]));
  }

  lemma {:induction false} RunIsSafe(worlds: seq<World>, events: seq<Event>, i: nat)
    requires IsRun(worlds, events) && Safe(worlds[0]) && i < |worlds|
    ensures Safe(worlds[i])
    decreases i
  {
    if i == 0 {
    } else {
      RunIsSafe(worlds, events, i - 1);
      NextKeepsSafe(worlds[i - 1], events[i - 1]);
    }
  }

  lemma ForwardTransitive(u: World, v: World, w: World, f: string)
    requires f in u.followers && Forward(u, v, f) && Forward(v, w, f)
    ensures Forward(u, w, f)
  {
  }

  lemma {:induction false} RunMovesForward(worlds: seq<World>, events: seq<Event>, i: nat, j: nat, f: string)
    requires IsRun(worlds, events) && Safe(worlds[0]) && i <= j < |worlds| && f in worlds[i].followers
    ensures Forward(worlds[i], worlds[j], f)
    decreases j - i
  {
    if i == j {
    } else {
      RunMovesForward(worlds, events, i, j - 1, f);
      RunIsSafe(worlds, events, j - 1);
      NextKeepsSafe(worlds[j - 1], events[j - 1]);
      ForwardTransitive(worlds[i], worlds[j - 1], worlds[j], f);
    }
  }

  /** Over every run: each follower keeps Log Matching with the leader, what it has applied is the
      leader's first `lastApplied` commands, each once and in order, and is never taken back. */
  lemma ReplicationSafety(worlds: seq<World>, events: seq<Event>, i: nat, j: nat, f: string)
    requires IsRun(worlds, events) && Safe(worlds[0]) && i <= j < |worlds| && f in worlds[i].followers
    ensures Forward(worlds[i], worlds[j], f)
    ensures var n := worlds[j].followers[f];
            && LogMatching(n.log, worlds[j].leader)
            && n.lastApplied <= |worlds[j].leader|
            && n.applied == CommandsIn(worlds[j].leader, 0, n.lastApplied)
            && n.applied <= CommandsIn(worlds[j].leader, 0, |worlds[j].leader|)
  {
    RunMovesForward(worlds, events, i, j, f);
    RunIsSafe(worlds, events, j);
    var w := worlds[j];
    PrefixOfCommands(w.leader, w.followers[f].lastApplied, |w.leader|);
  }

  /** No two followers ever apply different commands at the same position. */
  lemma AppliedNeverDiverge(worlds: seq<World>, events: seq<Event>, i: nat, f: string, g: string, k: nat)
    requires IsRun(worlds, events) && Safe(worlds[0]) && i < |worlds|
    requires f in worlds[i].followers && g in worlds[i].followers
    requires k < |worlds[i].followers[f].applied| && k < |worlds[i].followers[g].applied|
    ensures worlds[i].followers[f].applied[k] == worlds[i].followers[g].applied[k]
  {
    ReplicationSafety(worlds, events, i, i, f);
    ReplicationSafety(worlds, events, i, i, g);
  }
}
