# Verified model of govc

govc is a version control server that keeps repositories in memory and spreads them over a
cluster. This project models the parts of it where one wrong step does lasting damage, in Dafny,
and proves what those parts promise over every input, every run or every interleaving:

- **Raft replicas** (`RaftNode`, `RaftCluster`, `RaftElection`, `RaftLogMatching`, `RaftApplied`,
  `RaftCommit`, `RaftCompleteness`, `RaftOverwrite`, `RaftSuccession`, `RaftMembership`).
  A replica is an object whose handlers update its fields step by step; each handler is proved to
  compute a pure function of the old state. A cluster is any number of replicas under any
  interleaving of time-outs, vote requests, append requests, snapshot messages, proposals and
  sends; its members do not change, except in `RaftMembership`. On top of that stand Election
  Safety, Log Matching and Leader Completeness (sections 5.2 to 5.4 of the Raft paper), the
  harmlessness of delayed duplicates, the exact contents of the applied history and a bound on what
  is committed.
- **Sharding** (`HashRing`, `RingMembers`, `MigrationQueue`, `RepositoryMigration`,
  `RepositoryOverlap`, `Rebalance`): the consistent hash ring, its minimal movement and its contents
  after joins and leaves, the conservation and the order of queued migrations, exactly when
  interleaved migrations lose no repository, and rebalancing that never makes the balance worse.
- **Membership** (`ShardPlacement`, `Failover`): where shards live while nodes come and go, and
  the rate limit on failovers.
- **Git objects** (`TreeCodec`, `CommitCodec`, `CommitFields`, `CommitOrder`, with `Text` and
  `Decimal` below them): what the importer reads back from what the exporter writes, and the order in which
  commits are rebuilt.
- **Caches** (`LruCache`, `RepositoryPool`): the byte-bounded block cache against a recency list,
  and the bounded repository pool with its cached statistics.

`Basics` holds what several modules share. `dafny verify dfyconfig.toml` checks the whole project.

## What the code does that its promises do not say

Some promises hold only under a condition. The lemmas named below give the condition, in both
directions unless "Left out" says otherwise, and an input or a family of inputs on which the promise
fails.

- A vote for the empty candidate id is stored as "has not voted", so it does not bind the voter
  (`GrantBinds`, `ElectionSafetyIff`, `UnnamedCandidateBreaksSafety`).
- A term counter at its last 64-bit value wraps to zero in the next election and the replica can
  vote in an old term again, so that every cluster can elect any two candidates in one term
  (`ElectionRaisesTerm`, `WrappedTermBreaksSafety`).
- An election counts only the candidate's own vote, so in a cluster with fixed members a replica
  that says it leads is alone (`LeaderHoldsMajority`). Joining keeps that harmless; once nodes leave,
  or are promoted by the failover manager, two members can lead one term (`TwoLeadersIff`,
  `ReturnedLeaderLeads`, `PromotedMembersLead`).
- What a replica has applied is a prefix of its log exactly as long as every event at it is gentle: no
  accepted request replaces an applied entry, what comes due is found by index at its own position,
  and a snapshot is not installed except in a corner case (`HistoryKeptIff`, `ProposeKeepsIff`,
  `SnapshotKeepsIff`, `AppliedHistoryIff`; `MisnumberedEntryIsSkipped`, `SnapshotBreaksHistory`).
  Leaders with a majority do replace applied entries: in every cluster of three named replicas two of
  them can win successive terms, apply different commands at the same position, and the second
  overwrite the first (`ElectedLeadersDiverge`, `ElectedLeaderOverwrites`).
- A vote request is believed without proof. With truthful requests an entry that a majority stored in
  its term is in the log of every later leader (`LeaderCompleteness`); with a boast it can be lost
  (`UntruthfulVoteLosesEntry`).
- The commit index can step back (`CommitStepsBackIff`, `CommitStepsBack`).
- Removing a node from the ring deletes its points even where another node had taken them
  (`RemoveMovesOnlyOwnIff`, `RemovalMovesAnother`, `AddRemoveRestoresIff`, `RingNotRestored`), and of
  two nodes that share a point only the later one holds it (`RingHoldsIff`, `SharedPointIsLost`).
- A migration whose source is its target deletes the repositories (`NothingLostIff`,
  `SelfMigrationLoses`), and migrations that list one repository can lose it between them exactly if
  they lead from its node into a cycle (`OverlapLosesIff`, `OppositeMigrationsLose`).
- Pending migrations with one id share one place in the map of active ones, so that more of them run
  at once than the limit allows (`StartKeepsCountIff`, `CopiesAllRun`, `RunningLimitIff`).
- A rebalancing move that rests on an old measurement can make the balance worse
  (`MoveIsNoWorseIff`, `StaleMoveUnbalances`).
- Different key ranges can have the same shard id, so creating a shard can replace another
  (`SameIdIff`, `NewRangeReplacesShard`); a negative replication factor makes the creation panic
  (`CreateShard`).
- Elections are logged under the empty node id, which the failover limit does not cover
  (`FailoverLimitIff`, `ElectionsAreNotLimited`), and the log holds copies, so it never shows how a
  failover ended (`HandleNodeFailure`).
- The commit importer recurses for ever on a cyclic graph unless a commit fails first
  (`WalkEndsIff`, `CycleNeverEnds`, `FailureEndsCycle`).
- It slices out of range on an author line whose first `>` comes before its first `<`
  (`AuthorPanicsIff`, `ImportPanicsIff`), also on commits the exporter wrote (`ExportedPanicsIff`,
  `ImporterPanics`), and cannot read back a name with surrounding white space, an angle bracket or a
  line end (`CommitCodec.RoundTripIff`).
- Closing the pool empties it but keeps the cached statistics (`ClosedAgreesIff`,
  `ClosedPoolStillCounts`).

A *disciplined* Raft run, below, is one in which one node per term appends and sends, append
requests are delivered as they were sent, no snapshot is installed and no term counter wraps. Runs in
which only named nodes with a majority append and send are disciplined
(`ElectedRunsAreDisciplined`).

## Model

| member | source | states |
|---|---|---|
| RaftNode.Node.constructor | cluster/node.go:144-192 | a new replica is a follower in term 0 with no vote, an empty log and nothing applied |
| RaftNode.Node.HandleRequestVote | cluster/raft_handlers.go:57-114 | the whole new state and the answer, as a function of the old state: stale terms change nothing, higher terms are adopted and forget the vote, a vote is granted only if free or repeated and the candidate's log is up to date |
| RaftNode.Node.HandleAppendEntries | cluster/raft_handlers.go:117-213 | the whole new state and the answer, on each of the refusing paths and the accepting one |
| RaftNode.Node.Accept | cluster/raft_handlers.go:175-212 | the log becomes the merge, the commit index follows the leader's but not past the last new entry, and exactly the entries that came due are applied |
| RaftNode.Node.StoreEntries | cluster/raft_handlers.go:175-195 | the two loops together keep what agrees with the request and put the rest of the request after it |
| RaftNode.Node.CutConflict | cluster/raft_handlers.go:175-187 | the log is cut at the first entry whose term differs from the request's, and is untouched if none does |
| RaftNode.Node.AppendMissing | cluster/raft_handlers.go:189-195 | exactly the entries beyond the end of the log are appended |
| RaftNode.Node.ApplyCommittedEntries | cluster/raft_handlers.go:282-299 | the applied mark moves to the commit index if that is ahead, and the entries in between are handed over in order |
| RaftNode.Node.HandleSnapshot | cluster/raft_handlers.go:216-279 | the whole new state: term handling as in the other handlers, and on the last chunk only the later entries are kept |
| RaftNode.Node.StartElection | cluster/node.go:321-342 | the replica becomes a candidate in the next term, wrapping at 64 bits, votes for itself, and leads if that one vote is a majority |
| RaftNode.Node.BecomeLeader | cluster/node.go:345-362 | role, leader flag and leader id are set and nothing else changes |
| RaftNode.Node.AppendAndReplicate | cluster/cluster_handlers.go:449-476 | one entry of the current term is appended with the next index, committed and applied at once |
| RaftNode.AnswersCarryTerm | cluster/raft_handlers.go:57-279 | the answer to a vote, append or snapshot message carries the term of the replica afterwards, the greater of the two |
| RaftNode.VoteGrantedIff | cluster/raft_handlers.go:72-112 | a vote is granted if and only if the request is not stale, its log is up to date and no other candidate has the vote of that term; it is remembered and the log is left alone |
| RaftNode.ElectionOutcome | cluster/node.go:321-362 | an election moves to the next term with the own vote; a sole member leads, anyone else stands as a candidate, and the log is left alone |
| RaftNode.SenderIsFollowed | cluster/raft_handlers.go:138-172 | whoever sends in a current term is followed, whether or not the request fits; a stale request changes nothing, a refused one nothing in the log |
| RaftNode.SnapshotInstalled | cluster/raft_handlers.go:216-279 | the last chunk puts both marks at its index and applies nothing, other chunks leave log and marks alone |
| RaftElection.VotesRun | cluster/raft_handlers.go:78-112 | in every run with fixed members in which no term counter wraps, each voter has voted for at most one named candidate per term, and votes recorded for the current term stand in the voter's state |
| RaftElection.OneWinner | cluster/node.go:328-340 | two majorities of n/2+1 share a voter, so at most one named candidate wins a term |
| RaftElection.ElectionSafety | cluster/raft_handlers.go:78-112 | Election Safety over every run with fixed members in which no term counter wraps: no two named candidates hold n/2+1 votes of one term, whatever requests are delivered |
| RaftElection.ElectionSafetyIff | cluster/raft_handlers.go:103-110 | in every cluster with members some such run elects two given candidates in one term if and only if one of them is the empty id |
| RaftElection.LeaderHoldsMajority | cluster/node.go:328-340 | with fixed members and no promotion from outside, in every run a replica that says it leads holds a majority of its term and is the only member |
| RaftElection.GrantBinds | cluster/raft_handlers.go:103-110 | after a granted vote another up-to-date candidate is granted one in the same term if and only if the first candidate's id was empty |
| RaftElection.ElectionRaisesTerm | cluster/node.go:321-325 | an election raises the term if and only if the counter is not at its last value |
| RaftElection.UnnamedCandidateBreaksSafety | cluster/raft_handlers.go:103-110 | in every cluster with members, a run in which the empty id and any other candidate both win term 0 |
| RaftElection.WrappedTermBreaksSafety | cluster/node.go:321-325 | in every cluster with members, a run with wrapping counters in which any two candidates both win term 1 |
| RaftLogMatching.MergeSlice | cluster/raft_handlers.go:156-195 | storing a piece of the leader's log changes nothing or leaves a prefix of the leader's log, and the log then starts with everything up to the end of the piece |
| RaftLogMatching.InvStep | cluster/raft_handlers.go:117-213 | every disciplined step keeps that each log agrees, entry by entry, with the log of the leader of that entry's term |
| RaftLogMatching.LogMatching | cluster/raft_handlers.go:138-195 | Log Matching over every disciplined run: two logs with the same term at a position are equal up to it |
| RaftLogMatching.HoldsRun | cluster/raft_handlers.go:175-195 | in a disciplined run, while a replica stays in a term, a prefix it took over from that term's leader is never truncated |
| RaftLogMatching.RedeliveryIsHarmless | cluster/raft_handlers.go:156-195 | in a disciplined run a request accepted once is accepted again later in the term, whatever the run did in between, and changes no entry |
| RaftLogMatching.ElectedRunsAreDisciplined | cluster/node.go:321-362 | if only nodes with a majority append and send, and candidates are named, the discipline of one leader per term holds by itself |
| RaftLogMatching.ElectedLogMatching | cluster/raft_handlers.go:138-195 | Log Matching in both directions over every run in which only named nodes with a majority append and send: two logs are equal up to a position if and only if they have the same term there |
| RaftApplied.DueIsSliceIff | cluster/raft_handlers.go:282-299 | looking entries up by index yields the stretch of the log between the two marks if and only if each of them is found at its own position |
| RaftApplied.HistoryKeptIff | cluster/raft_handlers.go:175-212 | any append request keeps the applied sequence the prefix of the log up to the applied mark if and only if it is refused, or replaces no applied entry and makes due only entries that are found at their positions |
| RaftApplied.ProposeKeepsIff | cluster/cluster_handlers.go:449-476 | a proposal keeps it if and only if all waiting entries are found at their positions and no other entry has the next index |
| RaftApplied.SnapshotKeepsIff | cluster/raft_handlers.go:216-279 | a snapshot message keeps it if and only if it is stale or not the last chunk, or its index is the applied mark and all applied entries are numbered above it |
| RaftApplied.AppliedHistoryIff | cluster/raft_handlers.go:282-299 | in every run whatsoever: at every moment a replica has applied exactly the first `lastApplied` entries of its log, in order and each once, if and only if all events at it are of those kinds |
| RaftApplied.MisnumberedEntryIsSkipped | cluster/raft_handlers.go:286-296 | a committed entry whose index is not its position is not applied although the mark moves past it |
| RaftApplied.MisnumberedEntryWaits | cluster/raft_handlers.go:197-205 | as long as it is not committed such an entry does no harm |
| RaftApplied.SnapshotBreaksHistory | cluster/raft_handlers.go:262-275 | a snapshot installed on a new replica puts the applied mark beyond its log |
| RaftApplied.SparingIsGentle | cluster/raft_handlers.go:175-212 | in a disciplined run replacing an applied entry is the only way to disturb a history |
| RaftApplied.AppliedHistory | cluster/raft_handlers.go:282-299 | in every disciplined run without an accepted request that replaces an applied entry, the applied commands are exactly the first `lastApplied` entries |
| RaftApplied.AppliedMatchingIff | cluster/raft_handlers.go:138-212 | in such a run two state machines have applied the same commands up to a position if and only if the entries they applied there are of the same term |
| RaftApplied.AppliedOnlyGrows | cluster/raft_handlers.go:282-299 | no event but an installed snapshot takes the applied mark or the applied sequence back |
| RaftApplied.CommitStepsBackIff | cluster/raft_handlers.go:197-205 | the commit index steps back exactly on an accepted request that ends below it and announces a commit above it |
| RaftApplied.SentIndexed | cluster/cluster_handlers.go:454-463 | in every disciplined run all logs and all requests on the wire carry the indices of their positions |
| RaftApplied.KeptInOrder | cluster/raft_handlers.go:262-270 | an installed snapshot keeps exactly the entries numbered above its index, in their order |
| RaftApplied.ProposalIsApplied | cluster/cluster_handlers.go:449-476 | a proposal to a replica with a well-numbered log is applied at once with its command, time and term, after everything that was waiting |
| RaftCommit.CommitAfterAppend | cluster/raft_handlers.go:197-208 | a request succeeds exactly if it is accepted; a newer commit index then counts up to the last entry the request speaks of, and otherwise the commit index stays |
| RaftCommit.CommitsWithinTold | cluster/raft_handlers.go:197-212 | in every run whatsoever no replica commits, counts as applied or applies an index past what it was told by an accepted request, a snapshot or its own proposal, and no committed index is left unapplied |
| RaftCommit.CommitsOnlyProposed | cluster/cluster_handlers.go:449-476 | if senders announce no more than they have committed, what is delivered was sent and no snapshot is installed, no replica commits or applies an index that nobody has proposed |
| RaftOverwrite.ElectedLeadersDiverge | cluster/cluster_handlers.go:463-473 | for every three named replicas and any commands, a run in which two replicas with majorities of successive terms have applied different entries at the first position |
| RaftOverwrite.ElectedLeaderOverwrites | cluster/raft_handlers.go:175-187 | its continuation, in which the second leader's request replaces the entry the first has applied and the first one's history is broken |
| RaftOverwrite.CommitStepsBack | cluster/raft_handlers.go:197-205 | a late request that takes the commit index from 1 back to 0 |
| RaftCompleteness.UpToDateHas | cluster/raft_handlers.go:95-106 | a log that is at least as up to date as one with the entry has the entry, if the leaders of the terms in between have it |
| RaftCompleteness.LeaderCompleteness | cluster/raft_handlers.go:95-110 | Leader Completeness over every run in which only named nodes with a majority append and send and vote requests are truthful: an entry that a majority stored while in its term is in the log of every node elected in a later term |
| RaftCompleteness.CommittedStays | cluster/raft_handlers.go:175-195 | in such a run whoever has that entry, in its term or later, has it ever after |
| RaftSuccession.CandidRunsAreTruthful | cluster/raft_handlers.go:95-106 | if elected nodes act and every vote request arrives while its candidate still stands as it says, the run is truthful |
| RaftSuccession.TruthfulVoteKeepsEntry | cluster/raft_handlers.go:95-110 | for every three named replicas, a run that meets every hypothesis of Leader Completeness, so that the winner of the next term has the entry |
| RaftSuccession.UntruthfulVoteLosesEntry | cluster/raft_handlers.go:103-110 | for every three named replicas, a run in which a majority stored an entry and a replica without it wins the next term by a request that boasts |
| RaftMembership.TwoLeadersIff | cluster/cluster.go:180-220 | when members change: two of them can lead one term if and only if nodes may leave or be promoted from outside |
| RaftMembership.ReturnedLeaderLeads | cluster/cluster.go:201-220 | a run of joins and one leave after which two members lead term 1 |
| RaftMembership.PromotedMembersLead | cluster/failover.go:387-394 | a run in which two members are promoted and lead one term |
| HashRing.ConsistentHashRing.constructor | cluster/sharding.go:138-144 | an empty ring with its index |
| HashRing.ConsistentHashRing.AddNode | cluster/sharding.go:146-156 | all points of the node, and only those, now belong to it; the sorted index agrees with the map again |
| HashRing.ConsistentHashRing.RemoveNode | cluster/sharding.go:159-169 | all points of the node are gone and no others; the sorted index agrees with the map again |
| HashRing.ConsistentHashRing.UpdateSortedNodes | cluster/sharding.go:233-241 | the index is strictly increasing and holds exactly the keys of the map, in whatever order the map yields them |
| HashRing.ConsistentHashRing.Search | cluster/sharding.go:220-230 | the position of the first point at or after the hash, or 0 when there is none |
| HashRing.ConsistentHashRing.GetNode | cluster/sharding.go:172-183 | the node at the point with the smallest clockwise distance from the key's hash, or the empty id |
| HashRing.ConsistentHashRing.GetNodes | cluster/sharding.go:186-211 | the first `count` nodes in the order in which a clockwise walk meets them, headed by the node that `GetNode` returns |
| HashRing.ConsistentHashRing.Collect | cluster/sharding.go:195-210 | the wrapping walk keeps each node the first time it is met and stops at `count` |
| HashRing.FirstIsOwner | cluster/sharding.go:172-183 | binary search with wrap-around finds the true clockwise successor |
| HashRing.WalkByDistance | cluster/sharding.go:195-210 | a walk from there meets all points in strictly increasing clockwise distance |
| HashRing.PreferenceRanks | cluster/sharding.go:186-211 | the walk lists every node once, each before all nodes it is nearer than, the owner first |
| HashRing.PreferenceUnique | cluster/sharding.go:186-211 | there is only one such list, so the answer does not depend on how it is computed |
| HashRing.LargerCountExtends | cluster/sharding.go:186-211 | the answer has min(count, number of nodes) nodes and a larger count only extends it |
| HashRing.AddMovesOnlyToNew | cluster/sharding.go:146-156 | after adding a node every hash keeps its owner or goes to the new node, even with collisions |
| HashRing.RemoveMovesOnlyOwnIff | cluster/sharding.go:159-169 | removal moves only the hashes the node owned if and only if, on the ring before it, every removed point held by another node is followed by a staying point of that node, or none stays and the node's id is the empty answer |
| HashRing.RemovalMovesAnother | cluster/sharding.go:159-169 | a ring on which removing the point 5 moves a hash from one remaining node to another |
| HashRing.RemoveMovesOnlyOwn | cluster/sharding.go:159-169 | in particular when the node's points collide with nobody's |
| HashRing.RemovedOwnsNothing | cluster/sharding.go:159-169 | a removed node owns no hash any more, unless its id is the empty one and the ring is empty |
| HashRing.AddRemoveRestoresIff | cluster/sharding.go:146-169 | adding and then removing a node restores the ring if and only if none of its points was taken |
| HashRing.RingNotRestored | cluster/sharding.go:146-169 | a ring that adding and removing a node does not restore |
| HashRing.LabelsDiffer | cluster/sharding.go:150-152 | two labels are the same if and only if node and replica number are |
| RingMembers.RingHoldsIff | cluster/sharding.go:146-169 | after every sequence of joins and leaves every member holds all its points and nobody else any, if and only if no two of the nodes share a point |
| RingMembers.SharedPointIsLost | cluster/sharding.go:150-153 | of two nodes that share a point the one that joined first loses it |
| RingMembers.SeparatedApart | cluster/sharding.go:150-152 | with a hash that tells labels apart every node has `replicas` points and no two nodes share one |
| RingMembers.EveryMemberServes | cluster/sharding.go:146-211 | with such a hash, after every sequence of joins and leaves, the ring serves exactly the members, each owns its points, and a lookup for enough nodes answers with all of them |
| MigrationQueue.Migrations.MigrateShard | cluster/sharding.go:336-367 | an unknown shard changes nothing; otherwise one pending entry is added that lists each repository of the shard once |
| MigrationQueue.Migrations.ProcessPendingMigrations | cluster/sharding.go:480-505 | the in-place loop computes the drain |
| MigrationQueue.Migrations.EndMigration | cluster/sharding.go:509-515 | a background run ends: its id leaves the map and it is listed as completed or failed, whether or not its id was still active |
| MigrationQueue.DrainTakesNewest | cluster/sharding.go:480-505 | draining starts the newest entries, the newest first, stops only for lack of entries or of room, and leaves the others in order |
| MigrationQueue.QueueConserves | cluster/sharding.go:336-367 | in every run, unique ids or not, whatever is read off a migration apart from its state is found among the pending, running and completed ones exactly as often as it was submitted |
| MigrationQueue.TasksConserved | cluster/sharding.go:336-367 | so the migrations themselves are conserved, unchanged but for their state |
| MigrationQueue.QueueStaysOrderly | cluster/sharding.go:480-524 | in every run migrations are in the state of their place, completed ones completed or failed, active ids belong to running ones, and there are at most `maxActive` of them |
| MigrationQueue.UniqueTasks | cluster/sharding.go:480-524 | with unique ids no id is in two places or twice in one, the active ones are exactly the running ones, and at most `maxActive` run |
| MigrationQueue.StartKeepsCountIff | cluster/sharding.go:494-500 | starting keeps the number of migrations if and only if the id is not active already |
| MigrationQueue.CopiesAllRun | cluster/sharding.go:490-504 | any number of migrations with one id run at once when `maxActive` is 2 or more, with one place in the map |
| MigrationQueue.RunningLimitIff | cluster/sharding.go:490-504 | over all runs, duplicate ids included, at most `maxActive` migrations run if and only if `maxActive` is at most 1 |
| MigrationQueue.PendingInOrder | cluster/sharding.go:336-367 | in every run the pending migrations wait in the order in which they were submitted |
| MigrationQueue.LatestStartFirst | cluster/sharding.go:480-505 | each processing of the queue starts the latest submitted of the waiting migrations first, all of them later than those left waiting, and leaves some only for lack of room |
| MigrationQueue.CompletedTellsHow | cluster/sharding.go:509-550 | in every run the completed list holds the migrations whose runs ended, in that order, as completed or failed according to how they did |
| RepositoryMigration.NothingLost | cluster/sharding.go:526-550 | at every step of every interleaving of migrations with disjoint lists, a repository that began on a source other than the target is on source or target, unchanged |
| RepositoryMigration.CompletedIff | cluster/sharding.go:526-550 | on completion it is off the source, and on the target if and only if that is another node |
| RepositoryMigration.NothingLostIff | cluster/sharding.go:526-550 | it is on source or target in every interleaving if and only if these are different nodes |
| RepositoryMigration.SelfMigrationLoses | cluster/sharding.go:526-550 | every migration from a node to itself has a schedule that completes it without the repository |
| RepositoryMigration.FailedMovesNothing | cluster/sharding.go:517-524 | a migration fails only for an unknown node and then has moved nothing |
| RepositoryMigration.FailsIff | cluster/sharding.go:517-524 | in every run a migration has failed if and only if it has started and one of its nodes is unknown |
| RepositoryMigration.BystanderStays | cluster/sharding.go:526-550 | a repository in nobody's list stays on exactly the nodes it was on |
| RepositoryOverlap.OverlapLosesIff | cluster/sharding.go:526-550 | without disjoint lists: a repository on one node is somewhere at every moment of every interleaving if and only if the migrations that list it do not lead from that node into a cycle |
| RepositoryOverlap.LassoLoses | cluster/sharding.go:526-550 | along any such cycle all migrations can copy the repository before all of them delete it |
| RepositoryOverlap.LossNeedsLasso | cluster/sharding.go:526-550 | every interleaving that loses it contains such a cycle |
| RepositoryOverlap.OppositeMigrationsLose | cluster/sharding.go:336-367 | two migrations of one repository in opposite directions can lose it |
| Rebalance.CountShards | cluster/sharding.go:589-593 | the count of each node is the number of shards it is the primary of |
| Rebalance.MeasureSpread | cluster/sharding.go:596-609 | the total is the number of shards, the maximum is attained, and so is the minimum unless all counts exceed the 32-bit start value |
| Rebalance.CalculateShardMetrics | cluster/sharding.go:578-617 | counts, average and imbalance, and zeros when there is no shard |
| Rebalance.Classify | cluster/sharding.go:441-451 | each overloaded and each underloaded node is listed once and no other, for any map order and any threshold |
| Rebalance.OverAboveUnder | cluster/sharding.go:444-450 | whatever the threshold, an overloaded node has more shards than an underloaded one |
| Rebalance.GenerateRebalanceTasks | cluster/sharding.go:435-477 | one move for each pair of a node overloaded and a node underloaded at the measurement whose source leads a shard now; distinct sources, distinct targets, no source a target; if nothing changed since the measurement, min(overloaded, underloaded) moves, each from the larger count to the smaller |
| Rebalance.MovedShardsDiffer | cluster/sharding.go:454-474 | no shard is moved twice |
| Rebalance.RebalancingIsNoWorse | cluster/sharding.go:552-558 | making all moves of an up-to-date measurement keeps the shards, the nodes and the total, never raises the maximum or the sum of squares and never lowers the minimum |
| Rebalance.MoveIsNoWorseIff | cluster/sharding.go:552-558 | one move leaves the spread no worse if and only if the target leads a shard and the source leads more |
| Rebalance.StaleMoveUnbalances | cluster/sharding.go:454-474 | a measurement with an overloaded and an underloaded node, a placement that has changed since, and the move made from both, which leaves the spread worse |
| Rebalance.ImbalanceDoesNotRise | cluster/sharding.go:611-616 | the imbalance measured afterwards is not larger |
| Rebalance.AverageIsShare | cluster/sharding.go:611-612 | the average times the number of nodes is the number of shards, and it lies between the smallest and the largest count |
| Rebalance.ImbalanceMeans | cluster/sharding.go:613-616 | the largest count exceeds the smallest by that part of it; the imbalance is zero if and only if all counts are equal |
| Rebalance.LoadMeans | cluster/sharding.go:441-451 | a node is overloaded or underloaded exactly if its count is above or below the average by more than that part of it |
| ShardPlacement.Placement.constructor | cluster/cluster.go:135-162 | an empty cluster; a replication factor of 0 means 3 |
| ShardPlacement.Placement.AddNode | cluster/cluster.go:180-198 | refused exactly for a known node, otherwise one more member |
| ShardPlacement.Placement.RemoveNode | cluster/cluster.go:201-220 | refused exactly for an unknown node; otherwise it leaves every shard and the cluster |
| ShardPlacement.Placement.MigrateNodeShards | cluster/cluster.go:399-421 | every shard loses the node, with the first replica promoted if it was the primary |
| ShardPlacement.Placement.WithoutNode | cluster/cluster.go:410-417 | the replica list without the node, in the old order |
| ShardPlacement.Placement.CreateShard | cluster/cluster.go:256-282 | the shard of the range is placed anew on the selected nodes; refused exactly without nodes or when the selected primary is empty, and a panic that changes nothing exactly for a replication factor below one |
| ShardPlacement.Placement.SelectNodesForShard | cluster/cluster.go:424-450 | the first `factor` nodes of some order of all members, the first being the primary; panics exactly when there is a node and the factor is below one |
| ShardPlacement.SameIdIff | cluster/cluster.go:584-586 | two ranges share a shard id if and only if they are equal or one's start continues the other's behind a dash that the other has in its end |
| ShardPlacement.NewRangeReplacesShard | cluster/cluster.go:256-282 | creating the shard of a new range replaces the shard of such another range |
| ShardPlacement.LeaveChain | cluster/cluster.go:399-421 | leaving removes the node from primary-and-replicas and keeps the order, unless it is the only one there |
| ShardPlacement.PlacementStaysSound | cluster/cluster.go:399-450 | in every run the nodes of a shard are distinct, replicas are members, and so is the primary while there are replicas |
| ShardPlacement.ShardSurvives | cluster/cluster.go:201-220 | in every run that does not create its id again a shard consists of exactly the nodes it was placed on that were never removed, in their order |
| ShardPlacement.PrimaryAfterRemovals | cluster/cluster.go:201-220 | a shard placed on r nodes has a member as primary after any r - 1 removals |
| ShardPlacement.PrimaryLivesIff | cluster/cluster.go:399-421 | unless a node comes back, the primary is a member if and only if not all nodes of the shard were removed |
| ShardPlacement.ShardIsCreated | cluster/cluster.go:256-282 | a creation that is not refused gives the range a shard on the first nodes of the order, as many as the factor says or as there are, and leaves members and other shards alone |
| ShardPlacement.MemberIff | cluster/cluster.go:180-220 | in every run a node is a member if and only if it was added last, or was there all along |
| ShardPlacement.CreatedShardSurvives | cluster/cluster.go:201-282 | a shard created anywhere in a run on r nodes consists afterwards of those not removed since, in their order, with a member as primary while fewer than r removals have followed |
| Failover.FailoverManager.IsInCooldown | cluster/failover.go:601-613 | true exactly when `maxFailovers` events of the node started after the cutoff |
| Failover.FailoverManager.HandleNodeFailure | cluster/failover.go:314-362 | in cooldown nothing happens; otherwise a pending copy is logged before a replacement is looked for, found or not, and the copy never learns what becomes of the event |
| Failover.FailoverManager.LogElection | cluster/failover.go:365-400 | an election with a candidate is logged without a source node |
| Failover.FailoverLimit | cluster/failover.go:314-342 | for every named node and every time t the log holds at most `maxFailovers` failovers of that node started in (t - cooldown, t], in every run in which the second clock reading of a call is not before the first |
| Failover.FailoverLimitIff | cluster/failover.go:314-342 | the limit holds for a node in all those runs and at all times if and only if the node has a name or the cooldown is not positive |
| Failover.ElectionsAreNotLimited | cluster/failover.go:365-400 | any number of elections within one window is logged for the empty node id |
| Failover.FailureLoggedIff | cluster/failover.go:314-342 | in every run a failure is logged if and only if fewer than `maxFailovers` events of the node started within the cooldown before it or later |
| Failover.LimitIsReached | cluster/failover.go:601-613 | however often a node fails at one time, the failures up to the limit are all logged |
| Failover.LogRecordsRun | cluster/failover.go:314-400 | in every run the log records operations in their order, each at most once and as they started, and every election with a candidate |
| TreeCodec.ExportTree | importexport/exporter.go:288-296 | the buffer loop writes the entries one after the other |
| TreeCodec.ImportTree | importexport/importer.go:332-368 | the offset loop computes the parse, with the first malformed entry as its error |
| TreeCodec.ImportEntry | importexport/importer.go:337-366 | one round of the loop: missing NUL, missing space, truncated hash, or an entry and its length |
| TreeCodec.ParsePrinted | importexport/importer.go:332-368 | printed well-formed entries are read back as they were |
| TreeCodec.PrintParsed | importexport/exporter.go:288-296 | every byte string the parser accepts is printed back byte for byte, and its entries are well formed |
| TreeCodec.RoundTripIff | importexport/exporter.go:288-296 | entries survive a round trip if and only if modes have no space or NUL, names no NUL, and hashes are 40 lower-case hex digits |
| TreeCodec.DecodesLeadingPairs | importexport/exporter.go:292-295 | the hash is written as its leading pairs of digits, capital or not, and nothing after them |
| TreeCodec.EntryErrors | importexport/importer.go:337-360 | which of the three errors an entry gives, from where its NUL, its space and its end are |
| TreeCodec.ParseFailsIff | importexport/importer.go:332-368 | reading fails with an error if and only if the bytes print well-formed entries and go on with something that fails with that error |
| CommitCodec.ExportCommit | importexport/exporter.go:191-217 | tree, author, committer, empty line and the message with a final line end |
| CommitCodec.ImportCommit | importexport/importer.go:395-441 | the fold over the lines computes the reading, a failing author line included |
| CommitCodec.ParsedAuthorReadable | importexport/importer.go:528-557 | whatever the line, a parsed author has a trimmed name without angle brackets and an email without `>` |
| CommitCodec.ImportSound | importexport/importer.go:395-441 | whatever the text, an imported commit has readable authors, a one-line tree and one-line parents |
| CommitCodec.ImportExported | importexport/importer.go:395-441 | an exported commit is read back with its tree, author, whole-second time and trimmed message, for every message |
| CommitCodec.RoundTripIff | importexport/exporter.go:191-217 | that round trip works if and only if the tree has no line end, the name is trimmed and free of angle brackets and line ends, and the email is free of `>` and line ends |
| CommitCodec.AuthorPanicsIff | importexport/importer.go:528-564 | reading an author line panics if and only if it has three pieces or more and its first `>` comes before its first `<` |
| CommitCodec.ImportPanicsIff | importexport/importer.go:395-441 | reading a commit panics if and only if such an author or committer line stands before the first empty line |
| CommitCodec.ExportedPanicsIff | importexport/exporter.go:191-217 | a commit written by the exporter from a one-line tree, name and email makes the importer panic if and only if the name has a `>` with no `<` before it |
| CommitCodec.ImporterPanics | importexport/importer.go:528-564 | a commit by an author called `>` is exported and cannot be imported |
| CommitFields.ImportReads | importexport/importer.go:395-441 | for every text that can be read: the parents are all that follows `parent ` before the first empty line, in order; tree, author and committer are the last named there; the message is the rest, trimmed |
| CommitFields.FullRoundTripIff | importexport/importer.go:395-441 | a commit with any parents, an author and another committer is read back if and only if tree and parents hold no line end and both are readable |
| CommitFields.AuthorMeans | importexport/importer.go:528-557 | a line of three words or more is read as a name, an email in brackets and a time, any other as nobody at the zero time |
| CommitFields.StampMeans | importexport/importer.go:545-557 | the time is the first word after the email, or the clock if that is not a number |
| CommitFields.ExportedText | importexport/exporter.go:191-217 | the whole text of an exported commit, with a line end added where the message has none |
| CommitOrder.CommitWalk.constructor | importexport/importer.go:645-646 | nothing is processed yet |
| CommitOrder.CommitWalk.ProcessCommit | importexport/importer.go:648-675 | terminates on acyclic graphs, adds only the commit and its ancestors, each once and after its present parents, skips missing ones, and stops with exactly what was created before a failing commit |
| CommitOrder.CommitWalk.ProcessParents | importexport/importer.go:658-663 | all present parents are created before the commit, which is not |
| CommitOrder.CommitWalk.ReconstructCommits | importexport/importer.go:645-684 | on an acyclic graph it succeeds if and only if no present commit fails, and then every present commit is created exactly once, after its present parents, in any map order |
| CommitOrder.OrderedIsAcyclic | importexport/importer.go:645-684 | a complete parents-first list exists only for a graph without cycles |
| CommitOrder.WalkSucceedsIff | importexport/importer.go:645-684 | the walk creates every present commit, in any order, if and only if the graph has no cycle and no present commit fails |
| CommitOrder.AcyclicWalkEnds | importexport/importer.go:645-684 | without cycles the walk ends, whatever fails |
| CommitOrder.WalkEndsIff | importexport/importer.go:645-684 | when no present commit fails the walk comes to an end, in any order, if and only if the graph has no cycle |
| CommitOrder.CycleNeverEnds | importexport/importer.go:648-663 | on two commits that name each other as parent the walk never ends |
| CommitOrder.FailureEndsCycle | importexport/importer.go:659-668 | a parent that fails before the cycle is reached ends the walk on a cyclic graph |
| LruCache.LRUCache.constructor | datastore/lsm/cache_stub.go:25-32 | an empty cache of the given capacity |
| LruCache.LRUCache.Get | datastore/lsm/cache_stub.go:35-50 | returns the value in the recency list and moves it to the front |
| LruCache.LRUCache.Put | datastore/lsm/cache_stub.go:53-88 | stores the pair in front and keeps what fits |
| LruCache.LRUCache.Update | datastore/lsm/cache_stub.go:60-73 | the branch for a cached key: same keys, new value in front, size adjusted |
| LruCache.LRUCache.Insert | datastore/lsm/cache_stub.go:75-88 | the branch for a new key: one more pair in front, size adjusted |
| LruCache.LRUCache.EvictOldest | datastore/lsm/cache_stub.go:91-103 | the loop drops pairs from the back until the rest fits or nothing is left |
| LruCache.LRUCache.Clear | datastore/lsm/cache_stub.go:106-113 | nothing is left |
| LruCache.LRUCache.Size | datastore/lsm/cache_stub.go:116-120 | the sum of the sizes of all pairs, within the capacity |
| LruCache.LRUCache.Len | datastore/lsm/cache_stub.go:123-127 | the number of pairs |
| LruCache.FitIsLongest | datastore/lsm/cache_stub.go:91-103 | what survives is the longest most-recent prefix that fits |
| LruCache.CacheIsPrefixOfHistory | datastore/lsm/cache_stub.go:35-103 | in every run the cache is a prefix of the list of a cache that never evicts |
| LruCache.HitReturnsLatest | datastore/lsm/cache_stub.go:35-50 | in every run a hit returns the value last put for the key |
| LruCache.RunFits | datastore/lsm/cache_stub.go:91-103 | in every run the total size stays within a capacity of zero or more |
| LruCache.KeepsMostRecent | datastore/lsm/cache_stub.go:35-103 | in every run the cache is ordered by the last put or hit of its keys, and whatever was evicted was used less recently than everything kept |
| LruCache.PutIsHitIff | datastore/lsm/cache_stub.go:53-88 | in every run what is put is found by the next lookup if and only if key and value fit the capacity |
| RepositoryPool.Repositories.constructor | pool/repository_pool.go:77-100 | an empty pool without cached statistics; zero limits mean the defaults |
| RepositoryPool.Repositories.GetRepository | pool/repository_pool.go:103-155 | a known repository is marked as used; for a new one a full pool evicts first and refuses exactly when nothing was evicted |
| RepositoryPool.Repositories.RemoveRepository | pool/repository_pool.go:158-169 | the repository and the cached statistics go together |
| RepositoryPool.Repositories.GetStats | pool/repository_pool.go:179-241 | statistics are reused within five seconds, and agree with the pool either way |
| RepositoryPool.Repositories.CountActive | pool/repository_pool.go:209-234 | every repository is counted once, as active or as idle |
| RepositoryPool.Repositories.EvictIdleRepositories | pool/repository_pool.go:298-319 | the loop removes the idle repositories, returns their number and drops the cached statistics if there were any |
| RepositoryPool.EvictsExactlyIdle | pool/repository_pool.go:298-319 | a repository survives an eviction, unchanged, if and only if it is not idle past the cutoff |
| RepositoryPool.PoolStaysGood | pool/repository_pool.go:103-169 | in every run with a positive limit the pool stays within it, and cached statistics agree on total, membership and active + idle = total |
| RepositoryPool.ClosedAgreesIff | pool/repository_pool.go:257-275 | after closing, the cached statistics agree if and only if there were none or the pool was empty |
| RepositoryPool.ClosedPoolStillCounts | pool/repository_pool.go:257-275 | a pool with one reported repository still reports it from the cache after closing |
| RepositoryPool.GetServesIff | pool/repository_pool.go:103-155 | a repository is there after a request if and only if it was there, there was room or some repository was idle |
| RepositoryPool.RemovedIsGone | pool/repository_pool.go:158-169 | removing takes away that repository and no other |
| RepositoryPool.UsedRepositoryStays | pool/repository_pool.go:298-327 | in every run without a removal of it or a clearing later than the idle time, a used repository stays, with its path, its last use and an exact count of its uses |
| RepositoryPool.StatsMatchEviction | pool/repository_pool.go:209-234 | statistics count as idle what a clearing at that time would remove and what lies right at the cutoff, and everything else as active |
| RepositoryPool.ReportIsRecent | pool/repository_pool.go:179-241 | in every run a report hands out what was measured less than five seconds before in a state of the run, and measures again only when it has to |

## Left out

- HTTP, JSON, gRPC, WebSocket and command-line code, authentication, validation, configuration, logging and metrics: plumbing and easy checks around the parts modelled here.
- Disk persistence: clusters and shards start empty and nothing is written back.
- RaftElection.ElectionSafety: does not cover runs in which nodes join or leave, which change the number of votes that make a majority; `RaftMembership` covers those for the leader flag.
- RaftMembership.PromotedMembersLead: does not model how the failover manager picks the node it promotes, which is left to the environment.
- RaftNode.Node.constructor: does not model a replica that finds saved state on disk and starts from it.
- Cross-node commit safety of Raft is not promised by the code, which commits a proposal on the leader alone; `RaftOverwrite` shows that it fails.
- Log compaction; installed snapshots inside disciplined runs, where they break the rule that an entry's position is its index. Election Safety and `AppliedHistoryIff` cover installed snapshots.
- The leader's sending side: it is a stub, so requests on the wire are arbitrary pieces of a leader's log.
- RaftNode.Node.BecomeLeader: does not model the `NextIndex` and `MatchIndex` tables, which are written here and read nowhere, or the start of the heartbeats.
- RaftNode.Node.HandleAppendEntries: does not model the time of the last heartbeat; time-outs may happen at any moment. Positions and commit indices are natural numbers without wrap-around.
- RaftNode.Node.HandleRequestVote: does not model the heartbeat time set on a granted vote, for the same reason.
- RaftNode.Node.HandleSnapshot: does not model the heartbeat time or the contents of the snapshot.
- RaftNode.Node.StartElection: does not model the heartbeat time.
- HashRing: the hash is any function to 32-bit values; SHA-256 is not modelled. Sorting is a function with a proved contract in place of the library call.
- MigrationQueue.Migrations.MigrateShard: does not model how the id is made from the clock, which is a parameter, nor times, metadata and progress.
- RepositoryMigration: migrations are step machines on values, so that the accesses of several of them interleave; the goroutine around them, progress and the replica lists of the shard are not modelled.
- Rebalance: loads, averages and imbalance are real numbers; floating-point rounding is not modelled.
- Rebalance.CalculateShardMetrics: does not model the repository counts and the list of hot spots.
- ShardPlacement: shards are values in a map instead of shared pointers; the repositories inside a shard are not modelled.
- Failover.FailoverManager.HandleNodeFailure: does not model the search for a replacement, whose result is a parameter.
- Failover.FailoverManager.LogElection: does not model the promotion of the candidate, which sets a flag without a term.
- LruCache.LRUCache: the linked list is the sequence of its keys, so sharing of items between map and list is by key and not by pointer.
- RepositoryPool: repository contents, locks and the cleanup timer are not modelled; the operations are atomic steps. Access through a held entry is a step of the runs.
- RepositoryPool.Repositories.GetStats: does not model the last cleanup time, the configuration and the idle texts in the statistics.
- CommitOrder: on a cyclic graph with failing commits, whether the walk ends depends on the order of the parents; the model computes it but states no simpler condition.
- CommitCodec.ExportCommit: text is a sequence of characters; invalid UTF-8 is not modelled. Exported commits carry no parents because the exporter writes none; `CommitFields` covers commits with parents from elsewhere.
- TreeCodec.ExportTree: sorting of entries, the lines for subdirectories and whole-directory round trips are not modelled.
- zlib, SHA-1, object headers and file storage of Git objects.
- `ShardingManager.DistributeRepository`, `cluster/replication.go` and the datastore interfaces.
