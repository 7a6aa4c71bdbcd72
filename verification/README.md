# OpenLoadBalancer: verified models

This project models the parts of OpenLoadBalancer whose correctness rests on an argument rather than on a
glance at the code, and proves that argument in Dafny for every input and every run. `dafny verify dfyconfig.toml`
checks all of it.

What is modelled, and the main result of each part:

- **Raft log, votes and snapshots** (`RaftModel`, `RaftNode`, `RaftWatermark`, `RaftVotes`, `RaftRoles`,
  `RaftReplication`). The handlers for votes, log replication, elections, compaction and snapshots are atomic steps on
  a node. Over every run the in-memory log holds the consecutive indices past the compaction watermark, terms never go
  back, and a vote given to another node is never given to a third. Leadership is won in an election and ends when a
  request of a later term arrives. When a vote is granted, when an append succeeds, when one fails at run time, and
  when everything committed is also applied, are characterised exactly. Under one leader, with messages lost, repeated
  and reordered, every follower applies a prefix of the leader's log, each command once and in order (sections 5.3 and
  5.4.1 of Ongaro and Ousterhout, "In Search of an Understandable Consensus Algorithm").
- **Maglev** (`MaglevRows`, `MaglevTable`, `Maglev`). 65537 is prime, so each backend's row is a permutation of the
  slots. A rebuild fills one empty slot per round, reassigns none, and ends with a complete table in at most one
  advance per row and slot. The table is a function of the rows, whatever the cursors did.
- **Smooth weighted round-robin** (`SmoothWeights`, `WeightedRoundRobin`). Whenever the shares of the calls so far are
  whole numbers, each backend has been returned exactly its share: before the first halving, and for ever when the
  shares of a million calls are whole too. Over runs of any length the shares stray by at most one call per halving
  and other backend, and no current weight leaves a fixed range.
- **Hash rings** (`HashRing`, `RingBalancers`, `RingSpread`). Binary search plus fallback is a clockwise walk.
  Dropping a backend moves only its own keys, and adding one moves keys only onto it. A rebuilt ring does not depend
  on map order. A ring holds exactly the hashes of its backends' numbered names, all different exactly when the hash
  tells those apart.
- **SWIM gossip** (`GossipCodec`, `GossipLayout`, `GossipMessages`, `GossipMembership`, `GossipNode`,
  `GossipBroadcast`). Messages, datagrams and compounds nested to any depth are read back exactly as sent, with the
  exact size limits. Whatever bytes arrive, a suspicion timer runs for exactly the suspect members. A member's
  precedence regresses in exactly two ways: the awaited acknowledgement of a suspect, and a join no newer than a dead
  or departed member. Broadcast budgets are conserved. Every change of a member's state and description is
  characterised exactly.
- **Replicated sessions** (`Sessions`, `SessionReplicas`). Truncating before a merge is unobservable after it, so
  replicas that have seen the same entries hold the same capped table, whatever the order and grouping.
- **Order windows, snapshot retention, response times, key suggestions, lock-free counters** (`OrderWindow`,
  `SnapshotStore`, `ResponseTime`, `EditDistance`, `BackendConns`).

Every state-changing component is a class whose methods are proved equal to a function of the old state, or related to
it by a predicate; the lemmas are about those functions and predicates. `Lexicographic`, `Decimal` and `Collections`
hold what several parts share. Hash functions are parameters. Clocks are integers passed to each call. A method that
the program runs under its lock is one atomic step; the lock-free counters are modelled operation by operation.

Where the code differs from its own comments, the model follows the code:

- The commit clamp in `HandleAppendEntries` takes the follower's last log index, not the index of the last new entry
  (`internal/cluster/cluster.go:1156-1163`). `RaftReplication.SafeForAllExactly` says exactly when that is safe.
- `getLastLogIndex` answers 0 for a fully compacted log (`internal/cluster/cluster.go:886-894`).
  `RaftWatermark.LeaderAppendKeepsExactly` and `RaftWatermark.AppendPanicsExactly` give the exact conditions, and
  `RaftWatermark.SnapshotThenHeartbeatPanics` a two-message run from a blank node.
- `CreateSnapshot` compacts through the last index held, applied or not (`internal/cluster/snapshot_ops.go:26-42`), and
  `RestoreSnapshot` takes an older snapshot too (`internal/cluster/snapshot_ops.go:62-74`). Either can leave the
  watermark past what was applied; no append then applies anything. `RaftWatermark.TakeCatchesUpExactly` and
  `RaftWatermark.OwnSnapshotCatchesUpExactly` give the exact conditions, `RaftWatermark.OlderSnapshotStalls` a run.
- `RestoreSnapshot` raises the term and keeps the role (`internal/cluster/snapshot_ops.go:78-81`), so a leader leads on in
  a term nobody elected it for. `RaftRoles.LeadsOnExactly` shows that nothing else does that.
- `decodeMessage` computes its slice end in 16 bits (`internal/cluster/gossip_encoding.go:45-46`), so frames over 65532
  payload bytes fail. `GossipCodec.FrameRoundTripExactly` states the bound.
- The eviction loop never deletes the empty key (`internal/cluster/state.go:385-406`).
  `Sessions.EvictionEndsExactly` says when it still ends.
- A DEAD notice about the local node sets the incarnation unconditionally (`internal/cluster/gossip_handler.go:282-291`).
  `GossipMembership.DeathRefutationForwardExactly` says when that moves forward.
- `RecordOrder` records a domain as often as it is listed. `OrderWindow.OrderWithinLimitsExactly` says what that costs.
- Interleaved `record` calls can leave a replaced sample in the running total. `ResponseTime.InterleavingSafeExactly`:
  from an empty buffer this is ruled out exactly with at most two threads or a single slot.
- `PropagateSession` overwrites newer entries too. `SessionReplicas.WriteFaithfulExactly` says when that matters.

## Model

| member | source | states |
|---|---|---|
| `RaftWatermark.WatermarkInvariant` | `internal/cluster/cluster.go:853-867` | After every run of appends, votes, elections, compactions, restores and installed snapshots: the log is the consecutive indices past the watermark, the binary search answers index - watermark - 1 or -1 exactly, an index inside the range is never missing (the gap rejection is unreachable), and ShouldSendSnapshot means "at or below the watermark" in both branches |
| `RaftWatermark.FindSlotContiguous` | `internal/cluster/cluster.go:853-867` | On a consecutive log the binary search finds an index exactly when it lies past the watermark and within the log, at the position the index determines |
| `RaftWatermark.AppendAllContiguous` | `internal/cluster/cluster.go:1132-1154` | Appending consecutive entries from inside the known range, with skipping and truncation, keeps the log consecutive |
| `RaftWatermark.HandleAppendKeeps` | `internal/cluster/cluster.go:1057-1198` | One AppendEntries, accepted or rejected, keeps the log consecutive past the watermark |
| `RaftWatermark.AboveContiguous` | `internal/cluster/snapshot_ops.go:86-110` | The compaction filter on a consecutive log is exactly the suffix past the compaction index, the whole log, or nothing |
| `RaftWatermark.TakeKeeps` | `internal/cluster/snapshot_ops.go:49-110` | Every handler step keeps the log consecutive past the watermark |
| `RaftWatermark.LeaderAppendKeepsExactly` | `internal/cluster/cluster.go:623-632` | A leader's own append keeps the log consecutive if and only if an entry is left in memory or nothing was compacted |
| `RaftWatermark.AppendAllKeepsCommitted` | `internal/cluster/cluster.go:1132-1154` | Entries that contradict nothing committed leave every committed entry in place |
| `RaftWatermark.AppendPanicsExactly` | `internal/cluster/cluster.go:1057-1192` | On every well-formed node and every request with consecutive entries: the handler fails at run time if and only if it accepts a request with a newer commit index while that index, or the end of the log as the clamp sees it, lies below what was already applied |
| `RaftWatermark.AppendAllEnd` | `internal/cluster/cluster.go:1132-1154` | Where an append ends the log: a conflict ends it with the request, otherwise the longer of the two stands and all of the old log is kept |
| `RaftWatermark.SettledAppendPanicsExactly` | `internal/cluster/cluster.go:1156-1192` | On a settled node, a request that contradicts nothing committed fails if and only if the log is fully compacted, something was applied, no entry lies past the watermark and the commit is newer |
| `RaftWatermark.SnapshotThenHeartbeatPanics` | `internal/cluster/snapshot_ops.go:159-195` | Every blank node that installs a snapshot and then hears a heartbeat with a newer commit index fails |
| `RaftWatermark.RunKeepsSettled` | `internal/cluster/cluster.go:1057-1198` | Applied <= committed <= last index holds through every run whose appends contradict nothing committed, up to the first failure |
| `RaftWatermark.CommitApplies` | `internal/cluster/cluster.go:1156-1192` | A commit that advances and does not fail applies all newly committed commands in order, or none when the watermark lies past what was applied |
| `RaftWatermark.CommitCatchesUpExactly` | `internal/cluster/cluster.go:1156-1192` | After such a commit the applied index equals the commit index if and only if the watermark was not past what was applied, or the new commit index is no further |
| `RaftWatermark.AppendCatchesUpExactly` | `internal/cluster/cluster.go:1057-1198` | A caught-up node (all committed commands applied, watermark not past them) is caught up after an AppendEntries if and only if it did not fail |
| `RaftWatermark.TakeCatchesUpExactly` | `internal/cluster/snapshot_ops.go:49-110` | A caught-up node stays so if and only if the step is no failing append, no compaction past what was applied and no snapshot older than the watermark |
| `RaftWatermark.RunCatchesUp` | `internal/cluster/cluster.go:1156-1192` | Over every run of such steps, whatever is committed is applied |
| `RaftWatermark.OwnSnapshotCatchesUpExactly` | `internal/cluster/snapshot_ops.go:16-46` | After its own snapshot a caught-up node is still caught up if and only if it had applied its whole log |
| `RaftWatermark.OlderSnapshotStalls` | `internal/cluster/snapshot_ops.go:49-83` | From a blank node, a snapshot followed by any older one, then the next entry with its commit: the entry is committed and never applied |
| `RaftWatermark.CheckExactly` | `internal/cluster/cluster.go:1075-1130` | On a consecutive log: below the watermark every previous entry passes, past the end none, in between exactly one of the right term; a refusal names the end of the log, or the index with the node's own term |
| `RaftWatermark.AppendSucceedsExactly` | `internal/cluster/cluster.go:1057-1198` | An append that does not fail succeeds if and only if its term is not past and the node does not contradict the previous entry; the answer carries the node's term and, on refusal, the right hints |
| `RaftWatermark.CompactionKeepsChecks` | `internal/cluster/snapshot_ops.go:86-110` | Compaction to an index inside the log changes the consistency check of no request from there on, hints included |
| `RaftWatermark.WatermarkTermExactly` | `internal/cluster/snapshot_ops.go:90-110` | Right at the watermark a request passes if and only if it carries the term of the entry that was compacted |
| `RaftWatermark.RestoredTermExactly` | `internal/cluster/snapshot_ops.go:62-74` | After a newer snapshot a request right behind it passes if and only if it carries the snapshot's term; one further on is pointed to the snapshot |
| `RaftVotes.VoteStability` | `internal/cluster/cluster.go:998-1037` | Over every run, a node that granted a term's vote to another node never grants that term's vote to a different candidate |
| `RaftVotes.TermMonotone` | `internal/cluster/cluster.go:998-1037` | The current term never decreases between two points of any run |
| `RaftVotes.RevokedOnlyByYielding` | `internal/cluster/cluster.go:1010-1022` | Within a term the only vote taken back is the node's own, yielded to a higher identifier, and the node is then a follower |
| `RaftVotes.PledgeLasts` | `internal/cluster/cluster.go:998-1037` | A pledge to another candidate lasts through the rest of the run or until the term is over |
| `RaftVotes.TakeKeepsFaith` | `internal/cluster/cluster.go:998-1037` | Every handler step keeps the term from going back and every vote given to another node |
| `RaftVotes.GrantMeans` | `internal/cluster/cluster.go:1024-1054` | A grant records the vote in the request's term and goes only to a log at least as up to date |
| `RaftVotes.GrantedExactly` | `internal/cluster/cluster.go:998-1054` | A vote is granted if and only if the term is not past, the vote is free (newer term, empty, the candidate's, or the node's own and outranked) and the candidate's last (term, index) is not behind the node's |
| `RaftVotes.RegrantExactly` | `internal/cluster/cluster.go:1010-1037` | Asked again in its term by a different up-to-date candidate, a node grants if and only if its vote is empty or is its own and the candidate outranks it |
| `RaftVotes.EmptyCandidateLosesVote` | `internal/cluster/cluster.go:1024-1031` | The empty identifier cannot hold a vote: a grant to it is followed in the same term by a grant to somebody else |
| `RaftRoles.FollowsLaterTerm` | `internal/cluster/cluster.go:1067-1071` | Any append, vote request or snapshot of a later term, whatever its outcome, makes the node a follower in it |
| `RaftRoles.LeadsOnExactly` | `internal/cluster/snapshot_ops.go:78-81` | A step ends with the node leading in another term if and only if it led and took a snapshot whose own term was later |
| `RaftRoles.RoleChanges` | `internal/cluster/cluster.go:375-486` | A node becomes a candidate only by an election and leader only by winning one as a candidate |
| `RaftRoles.LeadsOneTerm` | `internal/cluster/cluster.go:998-1071` | Between two points of a run at which a node leads in different terms it started an election or took such a snapshot |
| `RaftRoles.LeadershipIsWon` | `internal/cluster/cluster.go:462-476` | Between a point at which a node does not lead and one at which it does, it won an election as a candidate |
| `RaftRoles.FollowerLeadsByElection` | `internal/cluster/cluster.go:375-476` | A follower leads only after starting an election and then winning it |
| `RaftRoles.LaterTermEndsLeadership` | `internal/cluster/cluster.go:1006-1010` | After hearing of a later term a node leads, however the run goes on, only after starting and winning another election |
| `RaftRoles.UncontestedElection` | `internal/cluster/cluster.go:375-506` | An undisturbed election won makes the node leader of the next term by its own vote; lost, a follower |
| `RaftReplication.ReplicationSafety` | `internal/cluster/cluster.go:1057-1198` | Over every run under one leader, with safe slices of its log lost, repeated and reordered: each follower keeps Log Matching, its commit and applied indices never decrease, and what it applied is the first commands of the leader's log, each once and in order |
| `RaftReplication.AppliedNeverDiverge` | `internal/cluster/cluster.go:1156-1192` | No two followers ever apply different commands at the same position |
| `RaftReplication.SafeForAllExactly` | `internal/cluster/cluster.go:1156-1163` | A request is safe for every follower whose terms are positive, nondecreasing and no later than its own if and only if its commit index is covered by the slice it carries or no earlier term fits at any position in between |
| `RaftReplication.StaleFollowerDiverges` | `internal/cluster/cluster.go:1156-1163` | At a position where an earlier term fits, a follower that holds such an entry commits it |
| `RaftReplication.StaleRoomExactly` | `internal/cluster/cluster.go:1156-1163` | The closed condition on two neighbouring terms holds if and only if some earlier term fits there |
| `RaftReplication.OwnTermIsSafe` | `internal/cluster/cluster.go:693-700` | A request that ends with an entry of the leader's own term, as each replicated command does, is safe whatever commit index it carries |
| `RaftReplication.AgreesFurther` | `internal/cluster/cluster.go:1156-1163` | Where no earlier term fits, a follower agrees with the leader as far as its log goes |
| `RaftReplication.DeliveryKeeps` | `internal/cluster/cluster.go:1057-1198` | One delivery keeps Log Matching and agreement on what is committed, moves both indices only forward, never fails, and a success means agreement through the slice |
| `RaftReplication.AppendSlice` | `internal/cluster/cluster.go:1132-1154` | Appending a slice of the leader's log makes the follower agree through its end and keeps every earlier agreement |
| `RaftReplication.ConsistentAgrees` | `internal/cluster/cluster.go:1076-1130` | Passing the previous-entry check means agreeing with the leader up to it |
| `RaftReplication.CommitAgreed` | `internal/cluster/cluster.go:1156-1192` | Committing up to an agreed index applies exactly the leader's next commands |
| `RaftReplication.LeaderAppendProposes` | `internal/cluster/cluster.go:623-632` | A leader's handling of a command appends to its log exactly the entry the replication runs propose |
| `RaftWatermark.AvailableIs` | `internal/cluster/cluster.go:1165-1184` | On a consecutive log past any watermark, the collected commands are exactly those between the applied and the commit index |
| `RaftNode.Cluster.HandleAppendEntries` | `internal/cluster/cluster.go:1057-1198` | Makes the specified step with its conflict hints; follows the sender and its term, as a follower if the term is later and in its old role otherwise; with consecutive entries keeps the log consecutive; takes back no term and no vote given to another node |
| `RaftNode.Cluster.CheckLog` | `internal/cluster/cluster.go:1075-1130` | The consistency check with its hints equals the specification |
| `RaftNode.Cluster.HandleRequestVote` | `internal/cluster/cluster.go:998-1037` | Grants if and only if the term is not past, the vote is free and the candidate's last (term, index) is not behind; a grant records the vote; a later term makes the node a follower; keeps the log consecutive and takes back no term and no vote given to another node |
| `RaftNode.Cluster.FindLogSlot` | `internal/cluster/cluster.go:853-867` | The binary-search loop equals the recursive search |
| `RaftNode.Cluster.AppendEntries` | `internal/cluster/cluster.go:1132-1154` | The append loop, with skip, truncate and append, equals the specification |
| `RaftNode.Cluster.CollectCommitted` | `internal/cluster/cluster.go:1165-1184` | The collection loop gathers exactly the available entries up to the commit index |
| `RaftNode.Cluster.AdvanceCommit` | `internal/cluster/cluster.go:1156-1192` | Commit advance and apply loop equal the specification, including the failing case |
| `RaftNode.Cluster.BeginElection` | `internal/cluster/cluster.go:375-378` | Keeps the log consecutive, takes back no term and no vote given to another node, and pledges the new term to the node itself alone |
| `RaftNode.Cluster.FinishElection` | `internal/cluster/cluster.go:462-506` | The node leads afterwards if and only if it led before or is still a candidate with enough votes, and then names itself leader |
| `RaftNode.Cluster.CheckQuorum` | `internal/cluster/cluster.go:549-556` | A leader without quorum contact becomes a follower that knows no leader |
| `RaftNode.Cluster.AppendCommand` | `internal/cluster/cluster.go:623-632` | Keeps the log consecutive if and only if an entry is left in memory or nothing was compacted |
| `RaftNode.Cluster.CompactLog` | `internal/cluster/snapshot_ops.go:86-110` | The compaction loop equals the specification and keeps the log consecutive past the new watermark |
| `RaftNode.Cluster.RestoreSnapshot` | `internal/cluster/snapshot_ops.go:49-83` | Leaves the node settled with an empty log, committed and applied at the snapshot's index, in a term no earlier than the snapshot's and in its old role; takes back no term and no vote given to another node |
| `RaftNode.Cluster.HandleInstallSnapshot` | `internal/cluster/snapshot_ops.go:159-195` | Succeeds if and only if the term is current and the data was restored, and then leaves the node settled at the snapshot's index; a later term makes it a follower; answers with its term; keeps the log consecutive and takes back no term and no vote given to another node |
| `MaglevRows.TableSizeIsPrime` | `internal/balancer/maglev.go:217-229` | 65537 is prime |
| `MaglevRows.RowIsPermutation` | `internal/balancer/maglev.go:217-229` | For a prime size and a skip that is not a multiple of it, offset + i*skip visits every slot exactly once |
| `Maglev.RowVisitsEverySlotOnce` | `internal/balancer/maglev.go:217-248` | Whatever the hash values, a backend's row visits each of the 65537 slots exactly once |
| `MaglevRows.RowStrides` | `internal/balancer/maglev.go:238-245` | A row starts at its offset and each entry is the one before plus the skip, modulo the number of slots |
| `Maglev.RowOfIsRowFor` | `internal/balancer/maglev.go:217-248` | A backend's row starts at the hash of its offset name modulo 65537 and steps on by the hash of its skip name modulo 65536, or by one where that is zero |
| `Maglev.Balancer.RowsAndTable` | `internal/balancer/maglev.go:251-300` | In every valid state each backend has exactly that row, and a table not marked stale is the one and only table those rows give |
| `Maglev.RowFitsUint64` | `internal/balancer/maglev.go:223-226` | The products behind a row stay below 2^64 |
| `MaglevTable.RoundFillsOneSlot` | `internal/balancer/maglev.go:275-297` | Every round finds an empty slot, fills exactly that one and reassigns none |
| `MaglevTable.FillTakesOneEach` | `internal/balancer/maglev.go:275-297` | After any number of rounds exactly that many slots are taken, each by one placement, and the rest are empty |
| `MaglevTable.FullTable` | `internal/balancer/maglev.go:251-300` | A complete fill leaves every slot with a backend index in range |
| `MaglevTable.TableUnique` | `internal/balancer/maglev.go:251-300` | The table is determined by the rows alone |
| `MaglevTable.AdvanceCursor` | `internal/balancer/maglev.go:280-290` | The cursor moves to the first entry of the row that is still empty |
| `MaglevTable.PickSmallest` | `internal/balancer/maglev.go:276-291` | One pass over the rows picks the smallest first-free slot and the first backend that offers it, and counts its advances |
| `MaglevTable.FillTable` | `internal/balancer/maglev.go:270-297` | The fill loop on the array ends with the table the rows determine, in at most rows * size advances |
| `Maglev.Balancer.GeneratePermutation` | `internal/balancer/maglev.go:217-248` | The row starts at the hash of the offset name modulo 65537 and steps on by the hash of the skip name modulo 65536, or by one where that is zero |
| `Maglev.Balancer.GeneratePermutations` | `internal/balancer/maglev.go:265-268` | The rebuild loop generates exactly the rows of the registered backends |
| `Maglev.Balancer.Add` | `internal/balancer/maglev.go:152-172` | Adding registers a new backend or replaces one in place, keeps positions and rows in step, and marks the table stale |
| `Maglev.Balancer.Remove` | `internal/balancer/maglev.go:175-197` | Removing takes the backend out of list and rows, renumbers the map, and marks the table stale; an unknown identifier changes nothing |
| `Maglev.Balancer.Rebuild` | `internal/balancer/maglev.go:251-300` | After a rebuild every slot names a registered backend (or is empty if there are none), in at most backends * 65537 advances, and the object is valid: its rows and table are those of RowsAndTable |
| `Maglev.Balancer.Next` | `internal/balancer/maglev.go:56-105` | The answer is the first available backend among the table's slots from the key's slot on, by the client's address or a running number; the number moves on by one exactly when it is used |
| `Maglev.FindInTable` | `internal/balancer/maglev.go:85-149` | Hashed backend plus fallback is the walk over the table from the key's slot |
| `Maglev.UnlistedKeeps` | `internal/balancer/maglev.go:115-149` | Taking a backend that a key was not sent to off the list changes nothing for that key |
| `SmoothWeights.ExactlyProportional` | `internal/balancer/weighted_round_robin.go:79-99` | From zero weights, whenever all shares of the calls so far are whole, each backend was picked exactly its share and every current weight is zero again: before the first halving, and in runs of any length when all shares of a million calls are whole |
| `SmoothWeights.FairShare` | `internal/balancer/weighted_round_robin.go:79-88` | While no halving shows, no backend is as much as one pick above its share, nor below it by as much as one pick per other backend |
| `SmoothWeights.NoneTooFarAhead` | `internal/balancer/weighted_round_robin.go:79-88` | While no halving shows, the current weights sum to zero and each stays above minus the total |
| `SmoothWeights.CurrentIsDebt` | `internal/balancer/weighted_round_robin.go:79-99` | Over any number of calls a current weight is calls times weight, minus total times picks, minus what the halvings took off |
| `SmoothWeights.AfterWholeRounds` | `internal/balancer/weighted_round_robin.go:79-99` | In particular after every round of as many calls as the total weight, under the same condition on halvings |
| `SmoothWeights.ZeroExactly` | `internal/balancer/weighted_round_robin.go:79-88` | While no halving shows, all current weights are zero if and only if all shares are whole |
| `SmoothWeights.RunIsPlain` | `internal/balancer/weighted_round_robin.go:93-99` | No halving shows before the millionth call, nor ever when all shares of a million calls are whole |
| `SmoothWeights.FairShareAlways` | `internal/balancer/weighted_round_robin.go:79-99` | Over runs of any length picks stray from the share by less than one per halving and one more above it, and at most that many per other backend below it |
| `SmoothWeights.NeverOverflows` | `internal/balancer/weighted_round_robin.go:79-99` | Over runs of any length with weights of at least one and the halving, the sum stays strictly between -n and n, every stored value above -W and at most (n-1)W, and mid-call at most nW |
| `SmoothWeights.FitsInt32` | `internal/balancer/weighted_round_robin.go:79-99` | So 32 bits suffice, mid-call too, whenever nW < 2^31 |
| `WeightedRoundRobin.BalancerIsProportional` | `internal/balancer/weighted_round_robin.go:39-105` | The balancer itself, from its first call on a list of distinct backends that are new or at zero, returns each backend exactly its share whenever all shares are whole, before the first halving or, when all shares of a million calls are whole, for ever |
| `WeightedRoundRobin.BalancerIsFair` | `internal/balancer/weighted_round_robin.go:39-105` | Over any number of calls each backend is returned its share up to one call per halving and one more, or that many per other backend |
| `WeightedRoundRobin.RegisterTwice` | `internal/balancer/weighted_round_robin.go:47-68` | Registering the same backends again changes nothing, so a first call runs as if they had been known |
| `WeightedRoundRobin.RegisterWeights` | `internal/balancer/weighted_round_robin.go:47-68` | Registration works with the weight already known for a backend or else the backend's own |
| `WeightedRoundRobin.BalancerFitsInt32` | `internal/balancer/weighted_round_robin.go:39-105` | And its stored weights stay in 32 bits under the same bound |
| `WeightedRoundRobin.CallIsStep` | `internal/balancer/weighted_round_robin.go:39-105` | On distinct known backends a call is one smooth step, followed by halving exactly on the millionth call, and returns the step's pick |
| `WeightedRoundRobin.CallRunMirrors` | `internal/balancer/weighted_round_robin.go:39-105` | Every run of calls mirrors a run of smooth steps, call by call |
| `WeightedRoundRobin.Balancer.Next` | `internal/balancer/weighted_round_robin.go:39-105` | The in-place call equals the specification, including registration of new backends and the empty list |
| `WeightedRoundRobin.Balancer.RaiseAll` | `internal/balancer/weighted_round_robin.go:79-85` | The raising loop gives the raised weights and the first maximum |
| `WeightedRoundRobin.Balancer.Normalize` | `internal/balancer/weighted_round_robin.go:93-99` | The halving loop halves toward zero the weights of the listed backends |
| `WeightedRoundRobin.Balancer.RegisterAll` | `internal/balancer/weighted_round_robin.go:47-68` | The registration loop adds unknown backends, refreshes references, and sums the stored weights |
| `WeightedRoundRobin.Balancer.Reset` | `internal/balancer/weighted_round_robin.go:142-149` | Resetting zeroes every current weight and nothing else |
| `HashRing.UnselectedDropKeeps` | `internal/balancer/consistent_hash.go:80-131` | A key not sent to a backend keeps its answer when that backend becomes unavailable or is removed from the ring |
| `HashRing.RemovedIsUnavailable` | `internal/balancer/consistent_hash.go:166-177` | Removing a backend's nodes answers every key as if it were unavailable |
| `HashRing.AddOnlyAttracts` | `internal/balancer/consistent_hash.go:134-155` | With no shared positions, adding a backend leaves each key where it was or moves it to the new backend |
| `HashRing.SortedUnique` | `internal/balancer/consistent_hash.go:228-232` | With no shared positions the sorted order of a set of nodes is unique |
| `HashRing.RingUnique` | `internal/balancer/ring_hash.go:200-225` | A ring is determined by the backends it stands for, whatever the map order |
| `HashRing.AddThenWithout` | `internal/balancer/consistent_hash.go:134-177` | Adding a backend and taking it out again gives the old ring |
| `HashRing.ClockwiseIsRotation` | `internal/balancer/consistent_hash.go:208-225` | Going round from the split point, or from the start when nothing is past the hash, is the clockwise order |
| `RingBalancers.Search` | `internal/balancer/consistent_hash.go:208-225` | The binary search with wrap-around finds where the clockwise walk starts |
| `RingBalancers.Walk` | `internal/balancer/consistent_hash.go:108-131` | The fallback loop finds the first available backend going round |
| `RingBalancers.SortRing` | `internal/balancer/consistent_hash.go:228-232` | Sorting gives a sorted permutation |
| `RingBalancers.VirtualNamesDistinct` | `internal/balancer/consistent_hash.go:143-151` | No two virtual nodes, of one backend or of two, hash the same name |
| `RingSpread.NodesExactly` | `internal/balancer/consistent_hash.go:143-151` | A ring holds a node if and only if it is the hash of a numbered name of one of its backends |
| `RingSpread.SpreadExactly` | `internal/balancer/consistent_hash.go:143-151` | All positions of a ring are different if and only if the hash tells its backends' numbered names apart |
| `RingSpread.PositionCount` | `internal/balancer/consistent_hash.go:143-151` | With such a hash each backend has exactly as many positions as virtual nodes |
| `RingSpread.ConsistentSpread` | `internal/balancer/consistent_hash.go:134-155` | In every valid consistent-hash balancer: the nodes are exactly the hashes of id:0 up to the configured number; all apart if and only if the hash tells these names apart, and then each backend has its full number of positions and none is shared |
| `RingSpread.RingHashSpread` | `internal/balancer/ring_hash.go:200-225` | The same for the ring-hash balancer with id#0 up to the configured number times the weight, at least one and at most 10000 |
| `RingBalancers.ConsistentHash.NextWithKey` | `internal/balancer/consistent_hash.go:80-131` | Binary search, owner check and fallback together are the clockwise lookup among available backends |
| `RingBalancers.AnswerIsLookup` | `internal/balancer/consistent_hash.go:90-93` | Without a node under the empty identifier the balancer's answer is the clockwise lookup |
| `RingBalancers.AnswerIsLookupExactly` | `internal/balancer/consistent_hash.go:90-93` | The early exit shows if and only if the key's first node is under the empty identifier and some node's backend is available |
| `RingBalancers.UnselectedDropKeepsAnswer` | `internal/balancer/consistent_hash.go:80-177` | Dropping or removing a backend that a key was not sent to keeps the balancer's answer for the key |
| `RingBalancers.AddOnlyAttractsAnswers` | `internal/balancer/consistent_hash.go:134-155` | Adding a backend leaves each of the balancer's answers or moves it to the new backend |
| `RingBalancers.ConsistentHash.Add` | `internal/balancer/consistent_hash.go:134-155` | Adding replaces the backend's nodes by its virtual nodes and keeps the ring sorted and exact |
| `RingBalancers.ConsistentHash.Remove` | `internal/balancer/consistent_hash.go:158-177` | Removing takes out exactly the backend's nodes |
| `RingBalancers.RingHash.RebuildRing` | `internal/balancer/ring_hash.go:200-225` | A rebuild in any map order gives the sorted ring of exactly the registered backends' weighted nodes |
| `RingBalancers.RingHash.Next` | `internal/balancer/ring_hash.go:69-150` | Search and fallback together are the clockwise lookup among available backends, by the client's address or a running number; the number moves on by one exactly when it is used |
| `RingBalancers.RingHash.Add` | `internal/balancer/ring_hash.go:153-164` | Adding registers the backend and rebuilds an exact ring |
| `RingBalancers.RingHash.Remove` | `internal/balancer/ring_hash.go:167-177` | With no shared positions, removing and rebuilding leaves the old ring with that backend's nodes taken out |
| `RingBalancers.RebuiltKeepsOthers` | `internal/balancer/ring_hash.go:167-225` | After a rebuild without a backend every other backend's keys keep their answers |
| `Decimal.IntToString` | `internal/balancer/consistent_hash.go:236-261` | The digit loop gives the decimal numeral, with a sign for negative numbers, and the sign alone for the least 64-bit number, whose negation wraps |
| `Decimal.NumberedNameInjective` | `internal/balancer/consistent_hash.go:143-151` | Names of the form identifier, separator, number determine both identifier and number |
| `Decimal.NumeralValue` | `internal/balancer/consistent_hash.go:236-261` | A numeral read digit by digit is its number, without leading zeros |
| `GossipCodec.FrameRoundTripExactly` | `internal/cluster/gossip_encoding.go:24-48` | A frame followed by anything is read back if and only if its payload is at most 65532 bytes; longer ones fail at run time |
| `GossipCodec.ConcatenationRoundTrip` | `internal/cluster/gossip_encoding.go:24-48` | Any concatenation of frames comes apart into those frames in order |
| `GossipCodec.ProbeRoundTripExactly` | `internal/cluster/gossip_encoding.go:51-86` | A probe payload is read back if and only if the end of the first identifier fits 16 bits |
| `GossipCodec.NoticeRoundTripExactly` | `internal/cluster/gossip_encoding.go:89-112` | The number-and-identifier payload of acknowledgements, suspicions and death notices is read back if and only if its end fits 16 bits |
| `GossipCodec.NodeRoundTripExactly` | `internal/cluster/gossip_encoding.go:139-231` | A node description is read back, with its port reduced to 16 bits, for every order of its metadata, if and only if the slice ends fit 16 bits |
| `GossipCodec.PortSurvivesExactly` | `internal/cluster/gossip_encoding.go:169-170` | A port survives if and only if it is a 16-bit number |
| `GossipCodec.PairsRoundTrip` | `internal/cluster/gossip_encoding.go:207-229` | The decoder's metadata loop performs exactly the written assignments |
| `GossipCodec.AssignIsMap` | `internal/cluster/gossip_encoding.go:173-180` | In whatever order a map's pairs are written, assigning them gives the map |
| `GossipCodec.DecodeCompound` | `internal/cluster/gossip_encoding.go:346-366` | Every part of a decoded compound is at least four bytes shorter than the compound, and decoding never fails at run time |
| `GossipCodec.CompoundRoundTrip` | `internal/cluster/gossip_encoding.go:322-366` | A compound payload comes apart into its parts |
| `GossipLayout.FrameLayout` | `internal/cluster/gossip_encoding.go:24-33` | A frame is the kind, the 16-bit big-endian length and the payload |
| `GossipLayout.KindLayout` | `internal/cluster/gossip_types.go:47-66` | The eight kinds carry the numbers 1 to 8 in the protocol's order |
| `GossipLayout.ParsedKind` | `internal/cluster/gossip_handler.go:15-34` | No payload is taken for a message of another kind |
| `GossipLayout.NoticeLayout` | `internal/cluster/gossip_encoding.go:89-98` | A 32-bit big-endian number, then the length-prefixed identifier, at fixed places |
| `GossipLayout.ProbeLayout` | `internal/cluster/gossip_encoding.go:51-66` | The sequence number, then the sender, then the target, each at its place |
| `GossipLayout.NodeLayout` | `internal/cluster/gossip_encoding.go:139-182` | Incarnation, identifier, address, port modulo 65536, number of pairs and the pairs, each at its place |
| `GossipLayout.PairsLayout` | `internal/cluster/gossip_encoding.go:165-180` | Each pair is a length-prefixed key and value at the offset its predecessors determine |
| `GossipLayout.CompoundLayout` | `internal/cluster/gossip_encoding.go:322-343` | The number of parts, then each length-prefixed part at the offset its predecessors determine |
| `GossipMessages.MessageRoundTripExactly` | `internal/cluster/gossip_encoding.go:24-288` | Every kind of message, followed by anything, is read back if and only if its payload is at most 65532 bytes |
| `GossipMessages.Receive` | `internal/cluster/gossip_handler.go:9-55` | Handling any bytes terminates through nested messages, and fails at run time only on more than 65535 bytes |
| `GossipMessages.DatagramRoundTrip` | `internal/cluster/gossip_handler.go:9-55` | A leading message of any kind with any messages piggybacked is received as the leading one and those of the five kinds, in order |
| `GossipMessages.PiggybackedRoundTrip` | `internal/cluster/gossip_handler.go:36-54` | Of any messages piggybacked, exactly those that are SUSPECT, ALIVE, DEAD, JOIN or LEAVE are received, in order; PING, ACK and PING_REQ are skipped |
| `GossipMessages.CompoundReceived` | `internal/cluster/gossip_handler.go:389-397` | Any compound within the size limits is received as its parts are received, in order, followed by the news after it |
| `GossipMessages.TreeReceived` | `internal/cluster/gossip_handler.go:9-55` | However deeply compounds are nested, and with any messages piggybacked at every level, a datagram is received as exactly its leading messages and the piggybacked ones of the five kinds, in order |
| `GossipMessages.UnknownSkipped` | `internal/cluster/gossip_handler.go:9-55` | A leading frame of no known kind is skipped and what is piggybacked behind it still received |
| `GossipMessages.EncodeMessageBuffer` | `internal/cluster/gossip_encoding.go:24-33` | The buffer-filling encoder equals the frame, or refuses an oversized payload |
| `GossipMessages.EncodePairs` | `internal/cluster/gossip_encoding.go:149-180` | The encoder's metadata loop lists the map in some order, or refuses exactly when a key or value is too long |
| `GossipMessages.DecodePairsLoop` | `internal/cluster/gossip_encoding.go:207-229` | The decoder's metadata loop equals the specification on every payload |
| `GossipMessages.DecodeCompoundLoop` | `internal/cluster/gossip_encoding.go:346-366` | The compound loop equals the specification on every payload |
| `GossipMembership.PrecedenceNeverRegresses` | `internal/cluster/gossip_handler.go:184-386` | Over any stretch of a run without one of the two lowering actions on it, a member's (incarnation, alive < suspect < dead < left) never decreases |
| `GossipMembership.LoweredExactly` | `internal/cluster/gossip_handler.go:83-386` | An action lowers a known member if and only if it is the awaited acknowledgement of a suspect or a join no newer than a dead or departed member; any other leaves it as it was or raises it strictly |
| `GossipMembership.TakenUpExactly` | `internal/cluster/gossip_handler.go:225-360` | A member is taken up if and only if another node announces itself by ALIVE or JOIN, and is then alive with the announced incarnation, address, port and metadata |
| `GossipMembership.LeavesExactly` | `internal/cluster/gossip_handler.go:366-386` | A known member leaves if and only if its LEAVE arrives |
| `GossipMembership.DiesExactly` | `internal/cluster/gossip_handler.go:275-309` | A known member dies if and only if a DEAD notice not out of date arrives or its suspicion timer runs out |
| `GossipMembership.SuspectedExactly` | `internal/cluster/gossip_handler.go:184-219` | A known member becomes suspect if and only if it is alive and a suspicion not out of date arrives or the local detector reports it |
| `GossipMembership.RevivedExactly` | `internal/cluster/gossip_handler.go:83-363` | A known member is alive again if and only if the awaited acknowledgement of a suspect, an announcement in a newer incarnation, or a join of a dead or departed one arrives |
| `GossipMembership.RecordedExactly` | `internal/cluster/gossip_handler.go:184-386` | When a known member changes, a notice sets its incarnation and keeps the description, an announcement replaces everything, anything else changes the state alone |
| `GossipMembership.DescriptionsAreAnnounced` | `internal/cluster/gossip_handler.go:225-363` | Over every run from an empty view the recorded address, port and metadata are those of some announcement of the member itself |
| `GossipMembership.AwaitedExactly` | `internal/cluster/gossip_handler.go:83-181` | A probe is awaited after an action if and only if it was and neither acknowledged nor given up, or the action started it |
| `GossipMembership.PingFitsExactly` | `internal/cluster/gossip_encoding.go:51-66` | The probe started for a PING_REQ is registered exactly when the encoder accepts it |
| `GossipMembership.RedeliveryIsNoOp` | `internal/cluster/gossip_handler.go:184-386` | Delivering a SUSPECT, ALIVE, DEAD or LEAVE a second time changes nothing |
| `GossipMembership.RunConsistent` | `internal/cluster/gossip_probe.go:128-201` | Over every run a node is never its own member and a suspicion timer runs for exactly the suspect members |
| `GossipMembership.AnyBytesKeepConsistent` | `internal/cluster/gossip_handler.go:9-55` | The same whatever bytes arrive, interleaved in any way with detections and timers |
| `GossipMembership.RefutationClearsExactly` | `internal/cluster/gossip_handler.go:190-205` | The answer to a suspicion clears it at the accuser if and only if the incarnation did not wrap |
| `GossipMembership.DeathRefutationForwardExactly` | `internal/cluster/gossip_handler.go:282-291` | A death notice moves its subject's incarnation forward if and only if it is not older and does not wrap |
| `GossipNode.Gossip.HandleAck` | `internal/cluster/gossip_handler.go:83-116` | Keeps timers equal to suspects and self out of the members; lowers no known member but a suspect sender whose probe was awaited; the probe is settled, and a settled probe leaves the sender not suspect |
| `GossipNode.Gossip.HandleSuspect` | `internal/cluster/gossip_handler.go:184-222` | Keeps timers equal to suspects and self out of the members; lowers no known member; afterwards the subject is not alive at the suspected incarnation or an older one, and a suspicion of the node itself is outbid unless the incarnation wraps |
| `GossipNode.Gossip.HandleAlive` | `internal/cluster/gossip_handler.go:225-272` | Keeps timers equal to suspects and self out of the members; lowers no known member; afterwards the subject is a member of at least the announced incarnation |
| `GossipNode.Gossip.HandleDead` | `internal/cluster/gossip_handler.go:275-309` | Keeps timers equal to suspects and self out of the members; lowers no known member; afterwards the subject is dead or gone at the announced incarnation or an older one, and news about the node itself is outbid unless the incarnation wraps |
| `GossipNode.Gossip.HandleJoin` | `internal/cluster/gossip_handler.go:312-363` | Keeps timers equal to suspects and self out of the members; lowers no known member but a dead or departed joiner that joins with no newer incarnation; afterwards the joiner is an alive or suspect member |
| `GossipNode.Gossip.HandleLeave` | `internal/cluster/gossip_handler.go:366-386` | Keeps timers equal to suspects and self out of the members; lowers no known member; afterwards a known subject has left |
| `GossipNode.Gossip.HandlePingReq` | `internal/cluster/gossip_handler.go:120-181` | Keeps timers equal to suspects and self out of the members; lowers no known member; for a known target and a ping that can be framed exactly the next probe number becomes awaited, otherwise nothing new is awaited |
| `GossipNode.Gossip.SuspectNode` | `internal/cluster/gossip_probe.go:128-145` | Keeps timers equal to suspects and self out of the members; lowers no known member; afterwards a known member is not alive |
| `GossipNode.Gossip.SuspicionExpired` | `internal/cluster/gossip_probe.go:161-190` | Keeps timers equal to suspects and self out of the members; lowers no known member; afterwards the timer is gone and the member is not suspect |
| `GossipNode.Gossip.HandleMessage` | `internal/cluster/gossip_handler.go:9-55` | Handling raw bytes in place equals delivering exactly the messages they contain, in order, and keeps timers equal to suspects |
| `GossipNode.Gossip.HandleAll` | `internal/cluster/gossip_handler.go:389-397` | The compound loop equals delivering the messages of all parts |
| `GossipBroadcast.BudgetConservation` | `internal/cluster/gossip_broadcast.go:51-97` | Over every run a broadcast goes out at most as often as it was granted, and leaves the queue if and only if it has gone out exactly that often |
| `GossipBroadcast.SweepConserves` | `internal/cluster/gossip_broadcast.go:78-96` | In one sweep each broadcast's remaining budget falls by exactly how often it was returned, and the total by the number of messages returned |
| `GossipBroadcast.SentFits` | `internal/cluster/gossip_broadcast.go:78-96` | What one sweep returns fits the size limit |
| `GossipBroadcast.SweepGreedy` | `internal/cluster/gossip_broadcast.go:78-96` | A broadcast is returned if and only if it fits beside all those returned before it, is otherwise kept unchanged, and goes when its budget is used up |
| `GossipBroadcast.AllGoOut` | `internal/cluster/gossip_broadcast.go:78-96` | A queue that fits is returned whole and in order |
| `GossipBroadcast.OwedPermuted` | `internal/cluster/gossip_broadcast.go:73-76` | Sorting changes no budget |
| `GossipBroadcast.Broadcasts.QueueBroadcast` | `internal/cluster/gossip_broadcast.go:51-61` | Every budget stays split between what has gone out and what is still owed; the new broadcast is owed its whole budget |
| `GossipBroadcast.Broadcasts.GetBroadcasts` | `internal/cluster/gossip_broadcast.go:65-97` | What is returned is the reference sweep of a newest-first order of the queue, fits the limit, and is charged to the budgets, which stay split exactly |
| `GossipBroadcast.Broadcasts.Conserved` | `internal/cluster/gossip_broadcast.go:51-97` | In every state of the queue a broadcast has gone out at most as often as granted and is gone if and only if it has gone out that often |
| `GossipBroadcast.Broadcasts.Collect` | `internal/cluster/gossip_broadcast.go:73-96` | The sort and the loop equal the reference sweep |
| `GossipBroadcast.SortByAge` | `internal/cluster/gossip_broadcast.go:73-76` | Sorting gives a newest-first permutation |
| `Sessions.HistoryConverges` | `internal/cluster/state.go:369-406` | After any sequence of merges, in any order, grouping and repetition, the table holds exactly the cap newest of the per-key newest entries ever delivered |
| `Sessions.CapAbsorbs` | `internal/cluster/state.go:369-406` | Truncating one side before a merge changes nothing after the merge is truncated |
| `Sessions.ReplicasConverge` | `internal/cluster/state.go:369-406` | Two replicas that were delivered the same entries hold the same table |
| `Sessions.MergeRetains` | `internal/cluster/state.go:369-381` | A merge keeps exactly the newest entry of each key |
| `Sessions.CutKeepsExactly` | `internal/cluster/state.go:385-406` | In a cut table an entry survives if and only if fewer than cap keys are newer |
| `Sessions.OrderUnobservableExactly` | `internal/cluster/state.go:369-381` | For two entries of one key the order of arrival is unobservable if and only if they are equal or their times differ |
| `Sessions.WriteIsMergeExactly` | `internal/cluster/state.go:310-331` | A local write is the merge of its entry if and only if the key is new, the write is newer, or the entry is already there |
| `Sessions.EvictionEndsExactly` | `internal/cluster/state.go:385-406` | With distinct times the eviction loop ends if and only if fewer than cap other keys are at least as new as an entry under the empty key, or there is none |
| `Sessions.EvictionOutcome` | `internal/cluster/state.go:385-406` | The loop either ends with a properly cut table or runs forever |
| `SessionReplicas.NetworkConverges` | `internal/cluster/state.go:310-381` | In every run of replicas that publish, merge and write nothing older than the entry replaced, two replicas that have seen the same entries hold the same table |
| `SessionReplicas.RunFaithful` | `internal/cluster/state.go:310-381` | In every such run each replica holds exactly what its cap retains of the entries it has seen |
| `SessionReplicas.WriteFaithfulExactly` | `internal/cluster/state.go:310-331` | A local write leaves a replica holding exactly what its cap retains of the entries seen if and only if it is not older than the entry it replaces |
| `SessionReplicas.MergeLoop` | `internal/cluster/state.go:369-378` | The merge loop, in any map order, equals the merge |
| `SessionReplicas.FindOldest` | `internal/cluster/state.go:391-401` | The scan finds an entry no other is older than |
| `SessionReplicas.DistributedState.EnforceSessionLimit` | `internal/cluster/state.go:385-406` | The eviction loop terminates and cuts the table to the cap, dropping nothing newer than what it keeps |
| `SessionReplicas.DistributedState.MergeSessions` | `internal/cluster/state.go:369-381` | Merging a batch is a delivery: merge, then cut |
| `SessionReplicas.DistributedState.PropagateSession` | `internal/cluster/state.go:310-331` | A local write replaces the key's entry and cuts the table |
| `SessionReplicas.DistributedState.MergeHealthStatus` | `internal/cluster/state.go:296-307` | Merging health reports is an uncapped delivery |
| `SnapshotStore.NameOrder` | `internal/cluster/snapshot_store.go:162-168` | Zero-padded names sort as strings exactly as their 64-bit indices sort as numbers, and differ exactly when the indices do |
| `Decimal.PadOrder` | `internal/cluster/snapshot_store.go:162-168` | Numbers below 10^w padded to w digits sort as strings exactly as they do as numbers |
| `Decimal.PadValue` | `internal/cluster/snapshot_store.go:162-168` | Below 10^w the padded numeral read digit by digit is its number |
| `SnapshotStore.NewestKept` | `internal/cluster/snapshot_store.go:292-319` | A save followed by a trim keeps the newest of everything ever saved: what was trimmed earlier never comes back |
| `SnapshotStore.NewestUnique` | `internal/cluster/snapshot_store.go:292-319` | There is only one list of newest indices for a set of saved indices |
| `SnapshotStore.ListFiles` | `internal/cluster/snapshot_store.go:270-289` | Globbing and sorting lists exactly the directory's names in ascending order |
| `SnapshotStore.ListingIs` | `internal/cluster/snapshot_store.go:270-289` | The sorted listing of a directory is the listing of its indices in numeric order |
| `SnapshotStore.Trim` | `internal/cluster/snapshot_store.go:292-319` | Removing first names until few enough are left keeps exactly the files of the newest indices, unchanged |
| `SnapshotStore.FileSnapshotStore.Save` | `internal/cluster/snapshot_store.go:171-211` | After any sequence of saves both kinds of files are exactly those of the retain newest indices ever saved, with what was last saved under them; a nil snapshot changes nothing |
| `SnapshotStore.FileSnapshotStore.Load` | `internal/cluster/snapshot_store.go:214-240` | Loading returns the snapshot of the largest index ever saved, as last saved, and reports an error exactly when nothing was saved |
| `SnapshotStore.FileSnapshotStore.List` | `internal/cluster/snapshot_store.go:243-266` | Listing returns the metadata of exactly the kept snapshots, newest first |
| `SnapshotStore.FileSnapshotStore.constructor` | `internal/cluster/snapshot_store.go:147-160` | At least one snapshot is retained |
| `OrderWindow.NeverOverTheLimit` | `internal/acme/ratelimit.go:86-176` | Over every run with a nondecreasing clock in which callers interleave their questions and each order follows a yes for the same duplicate-free domains with no other order between, no window, wherever it ends, holds more account orders or orders of one domain than its limit |
| `OrderWindow.CanOrderExactly` | `internal/acme/ratelimit.go:145-176` | However the tracker has been pruned, it says yes if and only if the full history allows the order |
| `OrderWindow.AnswerExactly` | `internal/acme/ratelimit.go:145-176` | Over every run, however pruned, the answer is yes if and only if in the windows ending now the history holds fewer account orders, failures and orders of each listed domain than the limits |
| `OrderWindow.ReportExactly` | `internal/acme/ratelimit.go:179-215` | Over every run a report leaves, and so counts, exactly what the full history holds in the account, failure and domain windows ending now |
| `OrderWindow.HistoryIs` | `internal/acme/ratelimit.go:86-141` | The full history of a run is the times of its orders, of each domain's orders and of its failures |
| `OrderWindow.PruningUnobservable` | `internal/acme/ratelimit.go:184-200` | Two trackers of one history answer every later question alike, however each was pruned |
| `OrderWindow.OrderWithinLimitsExactly` | `internal/acme/ratelimit.go:94-96` | Recording an order keeps a domain within its limit if and only if there is room for it as often as it is listed |
| `OrderWindow.RecentTwice` | `internal/acme/ratelimit.go:233-255` | Pruning earlier cannot be seen by a later count, and counts only fall as time passes |
| `OrderWindow.PruneInPlace` | `internal/acme/ratelimit.go:245-255` | Compaction in place keeps exactly the recent events, in order, at the front |
| `OrderWindow.CountInWindow` | `internal/acme/ratelimit.go:233-242` | The counting loop counts the recent events |
| `OrderWindow.RateTracker.CanOrder` | `internal/acme/ratelimit.go:145-176` | The in-place check equals the specification, pruning up to the first full domain |
| `OrderWindow.RateTracker.CheckEach` | `internal/acme/ratelimit.go:155-162` | The loop over the listed domains prunes each and stops at the first full one, as specified |
| `OrderWindow.RateTracker.RecordOrder` | `internal/acme/ratelimit.go:86-122` | Recording equals the specification, and reports the account's count |
| `OrderWindow.RateTracker.RecordFailedValidation` | `internal/acme/ratelimit.go:126-141` | Recording a failure appends it and reports the count |
| `OrderWindow.RateTracker.Stats` | `internal/acme/ratelimit.go:179-215` | Statistics prune everything in any map order and report the counts, with a domain of the largest count |
| `ResponseTime.BackendState.Record` | `internal/balancer/least_response_time.go:36-72` | Recorded one at a time, the running total is the sum of the last window of samples and the count their number, through every lap of the buffer |
| `ResponseTime.BackendState.Average` | `internal/balancer/least_response_time.go:75-82` | The average is the integer mean, toward zero, of the samples in the window, or zero when there are none |
| `ResponseTime.MeanWithin` | `internal/balancer/least_response_time.go:75-82` | The average never leaves the range of the samples it is taken over |
| `ResponseTime.TotalExactly` | `internal/balancer/least_response_time.go:36-72` | In every interleaving of recordings, once all are finished the total is the sum of the buffer plus exactly the replaced samples that were not taken off |
| `ResponseTime.FullBufferIsExact` | `internal/balancer/least_response_time.go:36-72` | Once the buffer has filled, recordings may interleave in any way and the total is the sum of the buffer |
| `ResponseTime.CanDrift` | `internal/balancer/least_response_time.go:36-72` | With three threads and two slots or more, some schedule from an empty buffer leaves a replaced sample in the total |
| `ResponseTime.InterleavingSafeExactly` | `internal/balancer/least_response_time.go:36-72` | From an empty buffer every interleaving of recordings ends with the sum of the buffer in the total if and only if there are at most two threads or a single slot |
| `ResponseTime.RunOnTrack` | `internal/balancer/least_response_time.go:36-72` | With at most two threads or a single slot no schedule loses a replaced sample |
| `ResponseTime.StepDrift` | `internal/balancer/least_response_time.go:36-72` | Each atomic operation changes the drift by exactly the sample it fails to take off |
| `BackendConns.NeverOverTheLimit` | `internal/backend/backend.go:162-184` | In every interleaving, with arbitrary releases, the active count is never above a positive limit and between calls equals successful acquisitions minus releases; only releases without an acquisition bring it below zero |
| `BackendConns.RunExact` | `internal/backend/backend.go:162-184` | At every moment the active count is acquisitions minus releases plus slots won and not yet returned, and, stray releases apart, the number of connections held; the total is the number of acquisitions that returned true |
| `BackendConns.RefusedOnlyWhenFull` | `internal/backend/backend.go:162-179` | A refused call saw the backend full at some moment during the call |
| `BackendConns.OnlyLegalEdges` | `internal/backend/state.go:54-115` | However transitions interleave, the backend's state moves only along legal edges |
| `BackendConns.NeverStartsAgain` | `internal/backend/state.go:54-115` | A backend never returns to its starting state or reaches an unknown one, and only an up backend starts draining |
| `BackendConns.EdgesByGoal` | `internal/backend/state.go:54-74` | Up, down and maintenance can be reached from every other known state, except up from draining; draining only from up; starting and unknown never |
| `BackendConns.CanComeUp` | `internal/backend/state.go:101-115` | Whatever has happened, a backend in a known state can be brought up by any caller that is not in the middle of a transition |
| `EditDistance.DistanceIsLeastEdits` | `internal/config/unknown_keys.go:84-102` | The distance is the least number of single-character insertions, deletions and replacements between two strings: a path of that length exists and no shorter one does |
| `EditDistance.ComputeDistance` | `internal/config/unknown_keys.go:84-102` | The two-row table computes the recursive distance |
| `EditDistance.FillRow` | `internal/config/unknown_keys.go:92-98` | One row is filled from the previous one |
| `EditDistance.LastCharacterCounts` | `internal/config/unknown_keys.go:92-98` | Appending a character changes a distance by at most one |
| `EditDistance.ClosestKey` | `internal/config/unknown_keys.go:74-82` | In any map order the suggestion is the least name among those at minimum distance of at most two, or empty |
| `EditDistance.ClosestIsUnique` | `internal/config/unknown_keys.go:74-82` | That suggestion is unique |

## Left out

- Election safety and leader completeness: the same-term tie-break lets a candidate vote again in its own term; vote stability is what holds.
- RPC responses at the leader, counting of votes and of acknowledgements (a won or lost election is a step), timers, goroutines, channels and forwarding of commands.
- Joint-consensus membership changes and the pairing of snapshot data with the last log index.
- Compaction inside the replication runs: followers there hold uncompacted logs.
- Fixed-width wrap-around of terms, log indices and request counters, kept as unbounded numbers; incarnations, probe numbers, frame lengths and ports do wrap as in the code.
- A balanced share per backend in Maglev: the code gives each round to the smallest free slot, so no share is promised.
- The read-to-write lock upgrade in the Maglev lookup: a lookup is one atomic step.
- Bodies of the hash functions (CRC-32, FNV-1a) and their collisions; where positions must differ this is a stated condition.
- Weighted round-robin Add and Remove and the key of the consistent-hash balancer: single assignments.
- Refusal of unknown keys by walking the configuration types (reflection) and the warning texts built from the suggestion.
- Sending: probing order, random peer choice, retransmission timing, TCP fallback, HMAC and the replies to PING and PING_REQ; the probe a PING_REQ starts is modelled.
- The exact length of the preallocated buffer in the node-payload encoder; its contents are modelled.
- Expiry of sessions and of health reports, JSON encoding and the broadcast transport of the state tables.
- The memory snapshot store, file-system errors and JSON encoding of snapshots; files in the directory that the store did not write.
- Warning texts of the order tracker, and several clock readings within one call: each call has one time.
- Lowering or raising the connection limit while connections are held, and direct stores of the backend state.
- Floating-point balancers, moving averages, and the selection loop of the least-response-time balancer.
- RaftReplication.ReplicationSafety: assumes one leader of a positive term and requests that are safe in the sense of SafeForAllExactly; for any other request that lemma names the follower that goes wrong.
- RaftWatermark.AppendPanicsExactly: covers the capacity that wraps around; one that does not wrap but is too large to allocate also fails in the program and is not modelled.
- SessionReplicas.DistributedState.EnforceSessionLimit: requires that the eviction loop ends, because on the remaining tables the program's loop does not; EvictionEndsExactly characterises those.
- SessionReplicas.DistributedState.MergeSessions: requires that eviction ends on the merged table, for the same reason.
- SessionReplicas.DistributedState.PropagateSession: requires that eviction ends on the written table, for the same reason.
- SessionReplicas.NetworkConverges: covers local writes that are not older than the entry they replace; WriteFaithfulExactly shows that any other write forgets a newer entry.
- Sessions.HistoryConverges: needs different entries to carry different times; OrderUnobservableExactly shows why.
- SmoothWeights.ExactlyProportional: past the millionth call it needs whole shares of a million calls; without them FairShareAlways bounds the shares.
- ResponseTime.BackendState.Record: is the sequential recording; interleaved recordings are the state machine of InterleavingSafeExactly.
- OrderWindow.NeverOverTheLimit: covers orders on lists without repetitions; OrderWithinLimitsExactly gives the condition for the others.
- BackendConns.NeverOverTheLimit: the connection limit is constant.
