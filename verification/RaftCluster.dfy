/** A cluster of replicas and every interleaving of what can happen to them.

    A handler holds the lock of its replica from start to end, so each event is one atomic step.
    Vote and snapshot requests are arbitrary; append requests may be arbitrary too, the
    disciplined ones being those a leader has put on the wire before. `votes`, `leader`,
    `leaderLog` and `sent` are history: no handler reads them. */
module RaftCluster {
  import opened Basics
  import opened RaftNode

  datatype Vote = Vote(term: uint64, voter: NodeId, candidate: NodeId)

  datatype Cluster = Cluster(
    nodes: map<NodeId, NodeState>,
    votes: set<Vote>,                         // every vote granted so far, self votes included
    leader: map<uint64, NodeId>,              // who appended or sent in a term
    leaderLog: map<uint64, seq<LogEntry>>,    // that node's log while it was in the term
    sent: set<AppendRequest>)                 // append requests on the wire; never removed

  datatype Event =
    | Timeout(n: NodeId)
    | DeliverVote(n: NodeId, vote: VoteRequest)
    | DeliverAppend(n: NodeId, append: AppendRequest)
    | DeliverSnapshot(n: NodeId, snapshot: SnapshotRequest)
    | Propose(n: NodeId, cmd: Command, now: int)
    | Send(n: NodeId, prev: nat, len: nat, commit: nat)

  function Init(ids: set<NodeId>): Cluster {
    Cluster(map n | n in ids :: Fresh(n), {}, map[], map[], {})
  }

  function Put(c: Cluster, n: NodeId, s: NodeState): Cluster {
    c.(nodes := c.nodes[n := s])
  }

  /** Records that `n` acts as the leader of its current term. */
  function Note(c: Cluster, n: NodeId): Cluster
    requires n in c.nodes
  {
    var s := c.nodes[n];
    c.(leader := c.leader[s.currentTerm := n], leaderLog := c.leaderLog[s.currentTerm := s.log])
  }

  /** The request a leader sends: a contiguous piece of its log and whatever commit index. */
  function Slice(s: NodeState, prev: nat, len: nat, commit: nat): AppendRequest
    requires prev + len <= |s.log|
  {
    AppendRequest(s.currentTerm, s.id, prev, if prev == 0 then 0 else s.log[prev - 1].term,
                  s.log[prev..prev + len], commit)
  }

  function Step(c: Cluster, e: Event): Cluster {
    if e.n !in c.nodes then c
    else
      var s := c.nodes[e.n];
      match e
      case Timeout(n) =>
        var s' := OnElectionTimeout(s, Some(c.nodes.Keys));
        Put(c, n, s').(votes := c.votes + {Vote(s'.currentTerm, n, s'.votedFor)})
      case DeliverVote(n, req) =>
        var (s', resp) := OnRequestVote(s, req);
        Put(c, n, s').(votes := c.votes + if resp.voteGranted
                                          then {Vote(s'.currentTerm, n, req.candidateId)} else {})
      case DeliverAppend(n, req) => Put(c, n, OnAppendEntries(s, req).0)
      case DeliverSnapshot(n, req) => Put(c, n, OnSnapshot(s, req).0)
      case Propose(n, cmd, now) => Note(Put(c, n, OnPropose(s, cmd, now)), n)
      case Send(n, prev, len, commit) =>
        if prev + len > |s.log| then c
        else Note(c, n).(sent := c.sent + {Slice(s, prev, len, commit)})
  }

  function Run(c: Cluster, es: seq<Event>): Cluster {
    if es == [] then c else Step(Run(c, es[..|es| - 1]), es[|es| - 1])
  }

  /** Every event of the run is allowed by `ok` in the state it happens in. */
  predicate Keeps(c: Cluster, es: seq<Event>, ok: (Cluster, Event) -> bool) {
    es == [] || (Keeps(c, es[..|es| - 1], ok) && ok(Run(c, es[..|es| - 1]), es[|es| - 1]))
  }

  /** A term counter at its last value wraps to zero in the next election. */
  predicate NoWrap(c: Cluster, e: Event) {
    e.Timeout? && e.n in c.nodes ==> c.nodes[e.n].currentTerm < LAST_TERM
  }

  lemma StepMembers(c: Cluster, e: Event)
    ensures Step(c, e).nodes.Keys == c.nodes.Keys
    ensures c.votes <= Step(c, e).votes
    ensures c.sent <= Step(c, e).sent
  {
  }

  lemma StepTerms(c: Cluster, e: Event, n: NodeId)
    requires NoWrap(c, e) && n in c.nodes
    ensures n in Step(c, e).nodes
    ensures c.nodes[n].currentTerm <= Step(c, e).nodes[n].currentTerm
  {
  }

  lemma Next(s: Cluster, es: seq<Event>, e: Event, ok: (Cluster, Event) -> bool)
    ensures Run(s, es + [e]) == Step(Run(s, es), e)
    ensures Keeps(s, es + [e], ok) <==> Keeps(s, es, ok) && ok(Run(s, es), e)
  {
    assert (es + [e])[..|es + [e]| - 1] == es;
  }
}
