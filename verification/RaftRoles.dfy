/** Who leads, over whole runs of a node: leadership is won in an election, lasts for one term, and
    ends as soon as a later term is heard of. */
module RaftRoles {
  import opened RaftModel
  import opened RaftVotes
  import opened RaftWatermark

  /** The step is a request from another node that carries the term. */
  predicate Carries(s: Step, term: nat) {
    match s
    case Append(req) => req.term == term
    case Vote(req) => req.term == term
    case Install(req, _) => req.term == term
    case _ => false
  }

  /** Whatever the request and its outcome, a node that hears of a later term follows in it. */
  lemma FollowsLaterTerm(n: Node, s: Step, term: nat)
    requires Carries(s, term) && term > n.term
    ensures Take(n, s).role == Follower && Take(n, s).term >= term
    ensures s.Append? || s.Vote? ==> Take(n, s).term == term
  {
  }

  /** A step that raises the term by a snapshot's own, without a request in a later term. */
  predicate RaisedBySnapshot(n: Node, s: Step) {
    match s
    case RestoreFrom(_, lastTerm) => lastTerm > n.term
    case Install(req, restored) => restored && req.term == n.term && req.lastTerm > n.term
    case _ => false
  }

  /** A leader leads on in another term exactly after such a snapshot, which keeps its role. */
  lemma LeadsOnExactly(n: Node, s: Step)
    ensures Take(n, s).role == Leader && Take(n, s).term != n.term <==>
            n.role == Leader && RaisedBySnapshot(n, s)
  {
  }

  /** What each step can do to the role. */
  lemma RoleChanges(n: Node, s: Step)
    ensures Take(n, s).role == Candidate ==> s.Elect? || n.role == Candidate
    ensures Take(n, s).role == Leader ==> n.role == Leader || (n.role == Candidate && s == Conclude(true))
  {
  }

  /** An election that nobody interferes with: won, the node leads in the next term by its own vote; lost,
      it follows. */
  lemma UncontestedElection(n: Node, won: bool)
    ensures var m := Run(n, [Elect, Conclude(won)]);
            && m.term == n.term + 1 && m.votedFor == n.id
            && if won then m.role == Leader && m.leader == n.id else m.role == Follower
  {
    var steps := [Elect, Conclude(won)];
    RunExtend(n, steps, 0);
    RunExtend(n, steps, 1);
    assert steps[..0] == [] && steps[..2] == steps;
  }

  predicate LeadsAt(n: Node, steps: seq<Step>, i: nat)
    requires i <= |steps|
  {
    Run(n, steps[..i]).role == Leader
  }

  /** Step `k` starts an election or raises the term by a snapshot's own. */
  predicate OpensTerm(n: Node, steps: seq<Step>, k: nat)
    requires k < |steps|
  {
    steps[k].Elect? || RaisedBySnapshot(Run(n, steps[..k]), steps[k])
  }

  /** From a point at which the node leads and with no term opened, it leads in that term or follows. */
  lemma {:induction false} LeadsOrFollows(n: Node, steps: seq<Step>, i: nat, j: nat)
    requires i <= j <= |steps| && LeadsAt(n, steps, i)
    requires forall k :: i <= k < j ==> !OpensTerm(n, steps, k)
    ensures var then', now := Run(n, steps[..i]), Run(n, steps[..j]);
            now.role == Follower || (now.role == Leader && now.term == then'.term)
    decreases j - i
  {
    if i == j {
    } else {
      LeadsOrFollows(n, steps, i, j - 1);
      RunExtend(n, steps, j - 1);
      var before := Run(n, steps[..j - 1]);
      assert !OpensTerm(n, steps, j - 1);
      RoleChanges(before, steps[j - 1]);
      LeadsOnExactly(before, steps[j - 1]);
    }
  }

  /** Between two points of a run at which the node leads in different terms it has started an
      election, or taken a snapshot whose own term was later than its own. */
  lemma LeadsOneTerm(n: Node, steps: seq<Step>, i: nat, j: nat)
    requires i <= j <= |steps| && LeadsAt(n, steps, i) && LeadsAt(n, steps, j)
    requires Run(n, steps[..i]).term != Run(n, steps[..j]).term
    ensures exists k :: i <= k < j && OpensTerm(n, steps, k)
  {
    if forall k :: i <= k < j ==> !OpensTerm(n, steps, k) {
      LeadsOrFollows(n, steps, i, j);
    }
  }

  /** Step `k` finds the node a candidate, and its election won. */
  predicate WinsAt(n: Node, steps: seq<Step>, k: nat)
    requires k < |steps|
  {
    Run(n, steps[..k]).role == Candidate && steps[k] == Conclude(true)
  }

  /** A node that did not lead and does has won an election in between. */
  lemma {:induction false} LeadershipIsWon(n: Node, steps: seq<Step>, i: nat, j: nat) returns (k: nat)
    requires i <= j <= |steps| && !LeadsAt(n, steps, i) && LeadsAt(n, steps, j)
    ensures i <= k < j && WinsAt(n, steps, k)
    decreases j - i
  {
    RunExtend(n, steps, j - 1);
    RoleChanges(Run(n, steps[..j - 1]), steps[j - 1]);
    if LeadsAt(n, steps, j - 1) {
      k := LeadershipIsWon(n, steps, i, j - 1);
    } else {
      k := j - 1;
    }
  }

  lemma {:induction false} CandidacyIsStarted(n: Node, steps: seq<Step>, i: nat, j: nat) returns (e: nat)
    requires i <= j <= |steps| && Run(n, steps[..i]).role != Candidate && Run(n, steps[..j]).role == Candidate
    ensures i <= e < j && steps[e].Elect?
    decreases j - i
  {
    RunExtend(n, steps, j - 1);
    RoleChanges(Run(n, steps[..j - 1]), steps[j - 1]);
    if steps[j - 1].Elect? {
      e := j - 1;
    } else {
      e := CandidacyIsStarted(n, steps, i, j - 1);
    }
  }

  /** So a follower leads only after starting an election and then winning it. */
  lemma FollowerLeadsByElection(n: Node, steps: seq<Step>, i: nat, j: nat) returns (e: nat, k: nat)
    requires i <= j <= |steps| && Run(n, steps[..i]).role == Follower && LeadsAt(n, steps, j)
    ensures i <= e < k < j && steps[e].Elect? && WinsAt(n, steps, k)
  {
    k := LeadershipIsWon(n, steps, i, j);
    e := CandidacyIsStarted(n, steps, i, k);
  }

  /** A node that hears of a later term leads, however the run goes on, only after it has started and
      won another election. */
  lemma LaterTermEndsLeadership(n: Node, steps: seq<Step>, i: nat, j: nat, term: nat) returns (e: nat, k: nat)
    requires i < j <= |steps| && Carries(steps[i], term) && term > Run(n, steps[..i]).term
    requires LeadsAt(n, steps, j)
    ensures i < e < k < j && steps[e].Elect? && WinsAt(n, steps, k)
  {
    RunExtend(n, steps, i);
    FollowsLaterTerm(Run(n, steps[..i]), steps[i], term);
    e, k := FollowerLeadsByElection(n, steps, i + 1, j);
  }
}
