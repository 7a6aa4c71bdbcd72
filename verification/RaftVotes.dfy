/** Votes over whole runs of a node: requests for votes, appends, snapshots and its own elections,
    in any order and with any contents. */
module RaftVotes {
  import opened Lexicographic
  import opened RaftModel
  import opened RaftWatermark

  /** Step `i` of the run grants a vote for `candidate` in `term`. */
  predicate GrantsAt(n: Node, steps: seq<Step>, i: nat, term: nat, candidate: string) {
    && i < |steps| && steps[i].Vote? && steps[i].vote.candidate == candidate
    && HandleVote(Run(n, steps[..i]), steps[i].vote).1 == VoteResponse(term, true)
  }

  /** The node has moved past `term`, or its vote in `term` is for `candidate`. */
  predicate Pledged(n: Node, term: nat, candidate: string) {
    n.term > term || (n.term == term && n.votedFor == candidate)
  }

  lemma TakeBasics(n: Node, s: Step)
    ensures Take(n, s).term >= n.term && Take(n, s).id == n.id
  {
  }

  /** Within a term the only vote a step takes back is the node's own, yielded to a candidate with
      a higher identifier; the node is then a follower, with no vote or with one for that candidate. */
  lemma RevokedOnlyByYielding(n: Node, s: Step)
    requires n.votedFor != "" && Take(n, s).term == n.term && Take(n, s).votedFor != n.votedFor
    ensures s.Vote? && n.votedFor == n.id && Less(n.id, s.vote.candidate)
    ensures Take(n, s).role == Follower && Take(n, s).votedFor in {"", s.vote.candidate}
  {
  }

  lemma TakeKeepsPledge(n: Node, s: Step, term: nat, candidate: string)
    requires Pledged(n, term, candidate) && candidate != "" && candidate != n.id
    ensures Pledged(Take(n, s), term, candidate)
  {
    TakeBasics(n, s);
    if Take(n, s).term == n.term == term && Take(n, s).votedFor != candidate {
      RevokedOnlyByYielding(n, s);
    }
  }

  /** What every step keeps: the term does not go back, and no vote given to another node is taken
      back before the term is over. */
  ghost predicate KeepsFaith(n: Node, m: Node) {
    && m.id == n.id && m.term >= n.term
    && forall term, candidate :: candidate != "" && candidate != n.id && Pledged(n, term, candidate) ==>
         Pledged(m, term, candidate)
  }

  lemma TakeKeepsFaith(n: Node, s: Step)
    ensures KeepsFaith(n, Take(n, s))
  {
    TakeBasics(n, s);
    forall term, candidate | candidate != "" && candidate != n.id && Pledged(n, term, candidate)
      ensures Pledged(Take(n, s), term, candidate)
    {
      TakeKeepsPledge(n, s, term, candidate);
    }
  }

  lemma RunExtend(n: Node, steps: seq<Step>, i: nat)
    requires i < |steps|
    ensures Run(n, steps[..i + 1]) == Take(Run(n, steps[..i]), steps[i])
  {
    assert steps[..i + 1][..i] == steps[..i];
  }

  /** The current term never decreases between two points of a run. */
  lemma {:induction false} TermMonotone(n: Node, steps: seq<Step>, i: nat, j: nat)
    requires i <= j <= |steps|
    ensures Run(n, steps[..i]).term <= Run(n, steps[..j]).term
    ensures Run(n, steps[..i]).id == Run(n, steps[..j]).id == n.id
    decreases j
  {
    if j == 0 {
      assert steps[..0] == [];
    } else {
      RunExtend(n, steps, j - 1);
      TakeBasics(Run(n, steps[..j - 1]), steps[j - 1]);
      TermMonotone(n, steps, if i < j then i else j - 1, j - 1);
    }
  }

  lemma {:induction false} PledgeLasts(n: Node, steps: seq<Step>, i: nat, j: nat, term: nat, candidate: string)
    requires i <= j <= |steps| && candidate != "" && candidate != n.id
    requires Pledged(Run(n, steps[..i]), term, candidate)
    ensures Pledged(Run(n, steps[..j]), term, candidate)
    decreases j - i
  {
    if i == j {
    } else {
      TermMonotone(n, steps, i, i);
      RunExtend(n, steps, i);
      TakeKeepsPledge(Run(n, steps[..i]), steps[i], term, candidate);
      PledgeLasts(n, steps, i + 1, j, term, candidate);
    }
  }

  /** A grant records the vote, and goes only to a log at least as up to date as the node's own. */
  lemma GrantMeans(n: Node, req: VoteRequest)
    requires HandleVote(n, req).1.granted
    ensures HandleVote(n, req).0.votedFor == req.candidate
    ensures HandleVote(n, req).0.term == HandleVote(n, req).1.term == req.term
    ensures n.log != [] ==> req.lastLogTerm > LastTerm(n)
                            || (req.lastLogTerm == LastTerm(n) && req.lastLogIndex >= LastIndex(n))
  {
  }

  /** Having granted a term's vote to another node, a node never grants that term's vote to a
      different candidate later in the run. */
  lemma VoteStability(n: Node, steps: seq<Step>, i: nat, j: nat, term: nat, first: string, second: string)
    requires i < j
    requires GrantsAt(n, steps, i, term, first) && GrantsAt(n, steps, j, term, second)
    requires first != "" && first != n.id
    ensures second == first
  {
    RunExtend(n, steps, i);
    GrantMeans(Run(n, steps[..i]), steps[i].vote);
    PledgeLasts(n, steps, i + 1, j, term, first);
    TermMonotone(n, steps, 0, j);
    GrantMeans(Run(n, steps[..j]), steps[j].vote);
    TakeKeepsPledge(Run(n, steps[..j]), steps[j], term, first);
  }

  /** No vote of the node's stands in the way of the request. */
  predicate VoteIsFree(n: Node, req: VoteRequest) {
    || req.term > n.term
    || n.votedFor == "" || n.votedFor == req.candidate
    || (n.votedFor == n.id && Less(n.id, req.candidate))
  }

  /** A vote is granted exactly in a term not past, with the vote free, to a candidate whose last entry
      is not behind the node's own in (term, index). */
  lemma GrantedExactly(n: Node, req: VoteRequest)
    ensures HandleVote(n, req).1.granted <==>
            && req.term >= n.term
            && VoteIsFree(n, req)
            && (n.log != [] ==>
                  var last := n.log[|n.log| - 1];
                  || req.lastLogTerm > last.term
                  || (req.lastLogTerm == last.term && req.lastLogIndex >= last.index))
  {
  }

  /** When a vote can move: a node asked again in its term by a different, sufficiently up-to-date
      candidate grants exactly when its vote is empty or is its own and the candidate outranks it. */
  lemma RegrantExactly(n: Node, req: VoteRequest)
    requires req.term == n.term && req.candidate != n.votedFor
    requires LogUpToDate(n, req.lastLogIndex, req.lastLogTerm)
    ensures HandleVote(n, req).1.granted <==>
            n.votedFor == "" || (n.votedFor == n.id && Less(n.id, req.candidate))
  {
  }

  /** The empty identifier cannot hold a vote: a grant to it is followed, in the same term, by a
      grant to somebody else. */
  lemma EmptyCandidateLosesVote(n: Node, other: string)
    requires n.votedFor == "" && n.log == [] && other != ""
    ensures var steps := [Vote(VoteRequest(n.term, "", 0, 0)), Vote(VoteRequest(n.term, other, 0, 0))];
            GrantsAt(n, steps, 0, n.term, "") && GrantsAt(n, steps, 1, n.term, other)
  {
    var steps := [Vote(VoteRequest(n.term, "", 0, 0)), Vote(VoteRequest(n.term, other, 0, 0))];
    assert steps[..0] == [] && steps[..1] == [steps[0]] && steps[..1][..0] == [];
    assert Run(n, []) == n;
    assert Run(n, steps[..1]) == Take(n, steps[0]);
    LessIrreflexive("");
  }
}
