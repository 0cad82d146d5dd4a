/** Leader Completeness (section 5.4 of the Raft paper): what the up-to-date check of a vote request
    is for.

    In runs where only nodes with a majority append and send, and where vote requests are truthful,
    an entry that a majority stored in the term it was made in is in the log of every node that is
    elected in a later term. */
module RaftCompleteness {
  import opened Basics
  import opened RaftNode
  import opened RaftCluster
  import opened RaftElection
  import opened RaftLogMatching
  import opened RaftApplied

  // ------------------------------------------------------------------- states of a run

  /** The cluster after the first `p` events. */
  function StateAfter(ids: set<NodeId>, es: seq<Event>, p: nat): Cluster
    requires p <= |es|
  {
    Run(Init(ids), es[..p])
  }

  lemma AtNext(ids: set<NodeId>, es: seq<Event>, p: nat)
    requires p < |es|
    ensures StateAfter(ids, es, p + 1) == Step(StateAfter(ids, es, p), es[p])
  {
    assert es[..p + 1][..p] == es[..p];
  }

  lemma {:induction false} KeepsPrefix(s: Cluster, es: seq<Event>, ok: (Cluster, Event) -> bool, p: nat)
    requires Keeps(s, es, ok) && p <= |es|
    ensures Keeps(s, es[..p], ok)
    ensures p < |es| ==> ok(Run(s, es[..p]), es[p])
    decreases |es|
  {
    if p < |es| {
      var before := es[..|es| - 1];
      KeepsPrefix(s, before, ok, p);
      assert before[..p] == es[..p];
    } else {
      assert es[..p] == es;
    }
  }

  /** The candidate of the request is in its term and has a log that ends as the request says. */
  predicate Stands(c: Cluster, req: VoteRequest) {
    && req.candidateId in c.nodes
    && var s := c.nodes[req.candidateId];
       && s.currentTerm == req.term
       && req.lastLogIndex == LastLogIndex(s.log) && req.lastLogTerm == LastLogTerm(s.log)
  }

  /** If event `k` delivers a vote request, its candidate did stand so at some moment before. */
  predicate TrueRequest(ids: set<NodeId>, es: seq<Event>, k: nat)
    requires k < |es|
  {
    es[k].DeliverVote? ==> exists j | 0 <= j <= k :: Stands(StateAfter(ids, es, j), es[k].vote)
  }

  predicate Truthful(ids: set<NodeId>, es: seq<Event>) {
    forall k | 0 <= k < |es| :: TrueRequest(ids, es, k)
  }

  // ---------------------------------------------------------------- terms inside logs

  predicate Rising(log: seq<LogEntry>) {
    forall i, j | 0 <= i < j < |log| :: log[i].term <= log[j].term
  }

  predicate UpTo(log: seq<LogEntry>, term: uint64) {
    forall i | 0 <= i < |log| :: log[i].term <= term
  }

  /** Terms never fall inside a log, and no log is ahead of its owner's term. */
  ghost predicate Ordered(c: Cluster) {
    && (forall u | u in c.leaderLog :: Rising(c.leaderLog[u]) && UpTo(c.leaderLog[u], u))
    && (forall n | n in c.nodes :: UpTo(c.nodes[n].log, c.nodes[n].currentTerm))
  }

  lemma AgreedRises(h: map<uint64, seq<LogEntry>>, log: seq<LogEntry>)
    requires Agrees(h, log) && forall u | u in h :: Rising(h[u])
    ensures Rising(log)
  {
    if log != [] {
      var n := |log| - 1;
      assert AgreesAt(h, log, n);
      var lead := h[log[n].term];
      assert log == log[..n + 1] == lead[..n + 1];
      assert forall i | 0 <= i <= n :: log[i] == lead[i];
    }
  }

  lemma OrderedNode(c: Cluster, e: Event)
    requires Inv(c) && Ordered(c) && Disciplined(c, e) && e.n in c.nodes
    ensures e.n in Step(c, e).nodes
    ensures UpTo(Step(c, e).nodes[e.n].log, Step(c, e).nodes[e.n].currentTerm)
  {
    StepTerms(c, e, e.n);
    if e.DeliverAppend? && Accepts(c.nodes[e.n], e.append) {
      assert IsSlice(c.leaderLog, e.append);
      LogStored(c, e.n, e.append);
    } else if !e.Propose? {
      LogUntouched(c, e);
    }
  }

  lemma OrderedStep(c: Cluster, e: Event)
    requires Inv(c) && Ordered(c) && Disciplined(c, e)
    ensures Ordered(Step(c, e))
  {
    var c' := Step(c, e);
    StepMembers(c, e);
    if e.n in c.nodes {
      OrderedNode(c, e);
      AgreedRises(c.leaderLog, c.nodes[e.n].log);
      forall n | n in c'.nodes ensures UpTo(c'.nodes[n].log, c'.nodes[n].currentTerm) {
        if n != e.n { OthersStep(c, e, n); }
      }
      forall u | u in c'.leaderLog ensures Rising(c'.leaderLog[u]) && UpTo(c'.leaderLog[u], u) {
        LeaderLogs(c, e, u);
        if !(u in c.leaderLog && c'.leaderLog[u] == c.leaderLog[u]) {
          RisesOn(c.nodes[e.n].log, c'.leaderLog[u], u);
        }
      }
    }
  }

  lemma RisesOn(before: seq<LogEntry>, after: seq<LogEntry>, u: uint64)
    requires Rising(before) && UpTo(before, u) && before <= after
    requires forall i | |before| <= i < |after| :: after[i].term == u
    ensures Rising(after) && UpTo(after, u)
  {
  }

  /** History changes only for the term of a node that appends or sends, and then it is its log. */
  lemma LeaderLogs(c: Cluster, e: Event, u: uint64)
    requires e.n in c.nodes && u in Step(c, e).leaderLog
    ensures var c' := Step(c, e);
            || (u in c.leaderLog && c'.leaderLog[u] == c.leaderLog[u])
            || ((e.Propose? || e.Send?) && c.nodes[e.n].currentTerm == u
                && c.nodes[e.n].log <= c'.leaderLog[u]
                && forall i | |c.nodes[e.n].log| <= i < |c'.leaderLog[u]| :: c'.leaderLog[u][i].term == u)
  {
  }

  // ----------------------------------------------------------------- facts at every moment

  ghost predicate Sane(ids: set<NodeId>, c: Cluster) {
    Inv(c) && Ordered(c) && VoteInv(c) && LeadersElected(c) && AllIndexed(c) && c.nodes.Keys == ids
  }

  lemma {:induction false} OrderedRun(ids: set<NodeId>, es: seq<Event>)
    requires Keeps(Init(ids), es, Disciplined)
    ensures Ordered(Run(Init(ids), es))
  {
    if es != [] {
      OrderedRun(ids, es[..|es| - 1]);
      InvRun(Init(ids), es[..|es| - 1]);
      OrderedStep(Run(Init(ids), es[..|es| - 1]), es[|es| - 1]);
    }
  }

  lemma SaneAt(ids: set<NodeId>, es: seq<Event>, p: nat)
    requires Keeps(Init(ids), es, OnlyElectedAct) && p <= |es|
    ensures Sane(ids, StateAfter(ids, es, p))
    ensures p < |es| ==> OnlyElectedAct(StateAfter(ids, es, p), es[p])
    ensures p < |es| ==> Disciplined(StateAfter(ids, es, p), es[p])
  {
    ElectedRunsAreDisciplined(ids, es);
    KeepsPrefix(Init(ids), es, OnlyElectedAct, p);
    KeepsPrefix(Init(ids), es, Disciplined, p);
    ElectedRunsAreDisciplined(ids, es[..p]);
    InvRun(Init(ids), es[..p]);
    OrderedRun(ids, es[..p]);
    VotesRun(ids, es[..p]);
    SentIndexed(ids, es[..p]);
    MembersStay(ids, es[..p]);
  }

  lemma InvAt(ids: set<NodeId>, es: seq<Event>, p: nat)
    requires Keeps(Init(ids), es, OnlyElectedAct) && p < |es|
    ensures Inv(StateAfter(ids, es, p)) && Disciplined(StateAfter(ids, es, p), es[p])
  {
    SaneAt(ids, es, p);
  }

  /** Only an elected node appends or sends. */
  lemma ActorElected(ids: set<NodeId>, es: seq<Event>, p: nat)
    requires Keeps(Init(ids), es, OnlyElectedAct) && p < |es| && es[p].n in StateAfter(ids, es, p).nodes
    requires es[p].Propose? || es[p].Send?
    ensures Elected(StateAfter(ids, es, p), StateAfter(ids, es, p).nodes[es[p].n].currentTerm, es[p].n)
  {
    KeepsPrefix(Init(ids), es, OnlyElectedAct, p);
  }

  lemma {:induction false} TermsRise(ids: set<NodeId>, es: seq<Event>, n: NodeId, j: nat, p: nat)
    requires Keeps(Init(ids), es, OnlyElectedAct) && j <= p <= |es| && n in ids
    ensures n in StateAfter(ids, es, j).nodes && n in StateAfter(ids, es, p).nodes
    ensures StateAfter(ids, es, j).nodes[n].currentTerm <= StateAfter(ids, es, p).nodes[n].currentTerm
    decreases p
  {
    SaneAt(ids, es, j);
    if j < p {
      TermsRise(ids, es, n, j, p - 1);
      SaneAt(ids, es, p - 1);
      AtNext(ids, es, p - 1);
      StepTerms(StateAfter(ids, es, p - 1), es[p - 1], n);
    }
  }

  // --------------------------------------------------------------------- growing history

  ghost predicate Grows(h: map<uint64, seq<LogEntry>>, h': map<uint64, seq<LogEntry>>) {
    forall u | u in h :: u in h' && h[u] <= h'[u]
  }

  lemma GrowsStep(c: Cluster, e: Event)
    requires Inv(c) && Disciplined(c, e)
    ensures Grows(c.leaderLog, Step(c, e).leaderLog)
  {
    if e.n in c.nodes {
      var c' := Step(c, e);
      forall u | u in c.leaderLog ensures u in c'.leaderLog && c.leaderLog[u] <= c'.leaderLog[u] {
        assert LeaderInv(c, u);
        assert u in c'.leaderLog;
        LeaderLogs(c, e, u);
      }
    }
  }

  lemma AgreesGrows(h: map<uint64, seq<LogEntry>>, h': map<uint64, seq<LogEntry>>, log: seq<LogEntry>)
    requires Agrees(h, log) && Grows(h, h')
    ensures Agrees(h', log)
  {
    forall i | 0 <= i < |log| ensures AgreesAt(h', log, i) {
      assert AgreesAt(h, log, i);
      var u := log[i].term;
      assert h[u][..i + 1] == h'[u][..i + 1];
    }
  }

  lemma {:induction false} AgreesLater(ids: set<NodeId>, es: seq<Event>, j: nat, p: nat,
                                       log: seq<LogEntry>)
    requires Keeps(Init(ids), es, OnlyElectedAct) && j <= p <= |es|
    requires Agrees(StateAfter(ids, es, j).leaderLog, log)
    ensures Agrees(StateAfter(ids, es, p).leaderLog, log)
    decreases p
  {
    if j < p {
      AgreesLater(ids, es, j, p - 1, log);
      InvAt(ids, es, p - 1);
      AtNext(ids, es, p - 1);
      GrowsStep(StateAfter(ids, es, p - 1), es[p - 1]);
      AgreesGrows(StateAfter(ids, es, p - 1).leaderLog, StateAfter(ids, es, p).leaderLog, log);
    }
  }

  // ------------------------------------------------------------------- the stored entry

  /** A log prefix that ends with an entry of the term. */
  predicate EndsIn(x: seq<LogEntry>, t: uint64) {
    x != [] && x[|x| - 1].term == t
  }

  predicate Stored(c: Cluster, n: NodeId, t: uint64, x: seq<LogEntry>) {
    n in c.nodes && c.nodes[n].currentTerm == t && x <= c.nodes[n].log
  }

  /** At some moment of the run `n` was in term `t` and its log started with `x`. */
  predicate Stores(ids: set<NodeId>, es: seq<Event>, n: NodeId, t: uint64, x: seq<LogEntry>) {
    exists a | 0 <= a <= |es| :: Stored(StateAfter(ids, es, a), n, t, x)
  }

  /** A majority did, at whatever moments. */
  ghost predicate Committed(ids: set<NodeId>, es: seq<Event>, t: uint64, x: seq<LogEntry>,
                            quorum: set<NodeId>)
  {
    && EndsIn(x, t) && quorum <= ids && |quorum| >= |ids| / 2 + 1
    && forall n | n in quorum :: Stores(ids, es, n, t, x)
  }

  /** Every leader of a later term has it. */
  ghost predicate Have(c: Cluster, t: uint64, x: seq<LogEntry>) {
    forall u | u in c.leaderLog && u > t :: x <= c.leaderLog[u]
  }

  ghost predicate Holder(c: Cluster, n: NodeId, t: uint64, x: seq<LogEntry>) {
    n in c.nodes && t <= c.nodes[n].currentTerm && x <= c.nodes[n].log
  }

  /** Who has it in the term or later keeps it, as long as the later leaders have it. */
  lemma HolderStep(c: Cluster, e: Event, n: NodeId, t: uint64, x: seq<LogEntry>)
    requires Inv(c) && Disciplined(c, e) && EndsIn(x, t) && Have(c, t, x) && Holder(c, n, t, x)
    ensures Holder(Step(c, e), n, t, x)
  {
    StepTerms(c, e, n);
    if e.n != n {
      OthersStep(c, e, n);
    } else if e.DeliverAppend? && Accepts(c.nodes[n], e.append) {
      HolderAccepts(c, n, e.append, t, x);
    } else if !e.Propose? {
      LogUntouched(c, e);
    }
  }

  lemma LeaderStarts(c: Cluster, n: NodeId, u: uint64, t: uint64, x: seq<LogEntry>)
    requires Inv(c) && EndsIn(x, t) && Have(c, t, x) && Holder(c, n, t, x)
    requires u in c.leaderLog && u >= t
    ensures x <= c.leaderLog[u]
  {
    if u == t {
      var log, k := c.nodes[n].log, |x|;
      assert log[k - 1] == x[k - 1] && log[..k] == x;
      assert AgreesAt(c.leaderLog, log, k - 1);
    }
  }

  lemma HolderAccepts(c: Cluster, n: NodeId, req: AppendRequest, t: uint64, x: seq<LogEntry>)
    requires Inv(c) && EndsIn(x, t) && Have(c, t, x) && Holder(c, n, t, x)
    requires req in c.sent && Accepts(c.nodes[n], req)
    ensures var c' := Step(c, DeliverAppend(n, req));
            n in c'.nodes && x <= c'.nodes[n].log
  {
    assert IsSlice(c.leaderLog, req);
    LeaderStarts(c, n, req.term, t, x);
    MergeStarts(c.leaderLog, c.nodes[n].log, req, x);
    AcceptedState(c.nodes[n], req);
  }

  lemma MergeStarts(h: map<uint64, seq<LogEntry>>, log: seq<LogEntry>, req: AppendRequest,
                    x: seq<LogEntry>)
    requires IsSlice(h, req) && PrevMatches(log, req) && x <= log && x <= h[req.term]
    ensures req.prevLogIndex <= |log| && x <= Merge(log, req.prevLogIndex, req.entries)
  {
    var k := |x|;
    assert log[..k] == x == h[req.term][..k];
    MergeKeepsPrefix(h, log, req, k);
  }

  lemma {:induction false} HolderStays(ids: set<NodeId>, es: seq<Event>, n: NodeId, t: uint64,
                                       x: seq<LogEntry>, j: nat, p: nat)
    requires Keeps(Init(ids), es, OnlyElectedAct) && j <= p <= |es| && EndsIn(x, t)
    requires forall q | j <= q < p :: Have(StateAfter(ids, es, q), t, x)
    requires Holder(StateAfter(ids, es, j), n, t, x)
    ensures Holder(StateAfter(ids, es, p), n, t, x)
    decreases p
  {
    if j < p {
      HolderStays(ids, es, n, t, x, j, p - 1);
      InvAt(ids, es, p - 1);
      AtNext(ids, es, p - 1);
      HolderStep(StateAfter(ids, es, p - 1), es[p - 1], n, t, x);
    }
  }

  // ------------------------------------------------------------------ the up-to-date check

  /** Whoever is at least as up to date as a log with the entry has the entry too, if all leaders of
      the terms in between have it. */
  lemma UpToDateHas(h: map<uint64, seq<LogEntry>>, voter: seq<LogEntry>, log: seq<LogEntry>,
                    req: VoteRequest, t: uint64, x: seq<LogEntry>)
    requires Agrees(h, voter) && Agrees(h, log) && Rising(voter)
    requires Indexed(voter, 0) && Indexed(log, 0) && EndsIn(x, t) && x <= voter
    requires req.lastLogIndex == LastLogIndex(log) && req.lastLogTerm == LastLogTerm(log)
    requires UpToDate(voter, req)
    requires LastLogTerm(log) > t && LastLogTerm(log) in h ==> x <= h[LastLogTerm(log)]
    ensures x <= log
  {
    var v, n := |voter| - 1, |log| - 1;
    assert x[|x| - 1] == voter[|x| - 1];
    assert voter[|x| - 1].term <= voter[v].term;
    assert log != [];
    assert AgreesAt(h, voter, v) && AgreesAt(h, log, n);
    assert voter == voter[..v + 1] && log == log[..n + 1];
    var lead := h[log[n].term];
    if log[n].term == voter[v].term {
      assert voter == lead[..v + 1] && log == lead[..n + 1];
      assert voter == log[..v + 1];
    } else {
      assert forall i | 0 <= i < |x| :: x[i] == voter[i] && x[i].term <= t;
      assert log[n] == lead[n] && forall i | 0 <= i < |x| :: x[i] == lead[i];
      assert |x| <= |log|;
      assert log[..|x|] == lead[..|x|] == x;
    }
  }

  /** A vote was given in an election of the voter's own or by answering a request. */
  lemma {:induction false} VoteOrigin(ids: set<NodeId>, es: seq<Event>, p: nat, vote: Vote)
    returns (k: nat)
    requires p <= |es| && vote in StateAfter(ids, es, p).votes
    ensures k < p && vote.voter in StateAfter(ids, es, k).nodes && es[k].n == vote.voter
    ensures es[k].Timeout? || es[k].DeliverVote?
    ensures es[k].Timeout? ==> vote.candidate == StateAfter(ids, es, k).nodes[vote.voter].id
    ensures es[k].DeliverVote? ==>
              && es[k].vote.candidateId == vote.candidate && es[k].vote.term == vote.term
              && OnRequestVote(StateAfter(ids, es, k).nodes[vote.voter], es[k].vote).1.voteGranted
    decreases p
  {
    AtNext(ids, es, p - 1);
    if vote in StateAfter(ids, es, p - 1).votes {
      k := VoteOrigin(ids, es, p - 1, vote);
    } else {
      k := p - 1;
    }
  }

  // ------------------------------------------------------------------------- the theorem

  /** The hypotheses that stay the same throughout the proof. */
  ghost predicate Setting(ids: set<NodeId>, es: seq<Event>, t: uint64, x: seq<LogEntry>,
                          quorum: set<NodeId>)
  {
    Keeps(Init(ids), es, OnlyElectedAct) && Truthful(ids, es) && Committed(ids, es, t, x, quorum)
  }

  /** A member of the quorum has the entry at every moment at which it is in a later term. */
  lemma QuorumHolds(ids: set<NodeId>, es: seq<Event>, t: uint64, x: seq<LogEntry>,
                    quorum: set<NodeId>, v: NodeId, p: nat, later: nat)
    requires Setting(ids, es, t, x, quorum) && v in quorum && p <= later <= |es|
    requires v in StateAfter(ids, es, later).nodes
    requires StateAfter(ids, es, later).nodes[v].currentTerm > t
    requires later <= p + 1
    requires forall q | 0 <= q < p :: Have(StateAfter(ids, es, q), t, x)
    ensures Holder(StateAfter(ids, es, p), v, t, x)
  {
    assert Stores(ids, es, v, t, x);
    var a :| 0 <= a <= |es| && Stored(StateAfter(ids, es, a), v, t, x);
    if a >= later {
      TermsRise(ids, es, v, later, a);
      assert false;
    }
    HolderStays(ids, es, v, t, x, a, p);
  }

  /** Two majorities share a member. */
  lemma QuorumVotes(ids: set<NodeId>, c: Cluster, quorum: set<NodeId>, u: uint64, n: NodeId)
    returns (v: NodeId)
    requires c.nodes.Keys == ids && quorum <= ids && |quorum| >= |ids| / 2 + 1 && Elected(c, u, n)
    ensures v in quorum && Vote(u, v, n) in c.votes
  {
    var votes := Supporters(c, u, n);
    if quorum * votes == {} {
      SubsetSize(quorum + votes, ids);
      assert false;
    }
    v :| v in quorum * votes;
  }

  lemma LogFacts(ids: set<NodeId>, es: seq<Event>, p: nat, n: NodeId)
    requires Keeps(Init(ids), es, OnlyElectedAct) && p <= |es| && n in StateAfter(ids, es, p).nodes
    ensures Agrees(StateAfter(ids, es, p).leaderLog, StateAfter(ids, es, p).nodes[n].log)
    ensures Indexed(StateAfter(ids, es, p).nodes[n].log, 0)
    ensures Rising(StateAfter(ids, es, p).nodes[n].log)
  {
    SaneAt(ids, es, p);
    AgreedRises(StateAfter(ids, es, p).leaderLog, StateAfter(ids, es, p).nodes[n].log);
  }

  /** The candidate of a request that a holder of the entry granted had the entry when it stood. */
  lemma GrantedHas(ids: set<NodeId>, es: seq<Event>, t: uint64, x: seq<LogEntry>, k: nat, j: nat)
    requires Keeps(Init(ids), es, OnlyElectedAct) && j <= k < |es| && EndsIn(x, t)
    requires es[k].DeliverVote? && Stands(StateAfter(ids, es, j), es[k].vote)
    requires Holder(StateAfter(ids, es, k), es[k].n, t, x) && Have(StateAfter(ids, es, k), t, x)
    requires OnRequestVote(StateAfter(ids, es, k).nodes[es[k].n], es[k].vote).1.voteGranted
    ensures x <= StateAfter(ids, es, j).nodes[es[k].vote.candidateId].log
  {
    var c, req := StateAfter(ids, es, k), es[k].vote;
    var voter, log := c.nodes[es[k].n].log, StateAfter(ids, es, j).nodes[req.candidateId].log;
    LogFacts(ids, es, j, req.candidateId);
    LogFacts(ids, es, k, es[k].n);
    AgreesLater(ids, es, j, k, log);
    UpToDateHas(c.leaderLog, voter, log, req, t, x);
  }

  lemma GrantMovesTerm(c: Cluster, n: NodeId, req: VoteRequest)
    requires n in c.nodes && OnRequestVote(c.nodes[n], req).1.voteGranted
    ensures n in Step(c, DeliverVote(n, req)).nodes
    ensures Step(c, DeliverVote(n, req)).nodes[n].currentTerm == req.term
  {
  }

  lemma OwnName(ids: set<NodeId>, es: seq<Event>, k: nat, n: NodeId)
    requires k <= |es| && n in StateAfter(ids, es, k).nodes
    ensures StateAfter(ids, es, k).nodes[n].id == n
  {
    var c := StateAfter(ids, es, k);
    LeadersHoldRun(ids, es[..k]);
    assert LeadsAlone(c.nodes[n], n, |c.nodes.Keys|, c.votes);
  }

  /** A node that is elected in a later term has the entry while it is in that term. */
  lemma {:induction false} ElectedHas(ids: set<NodeId>, es: seq<Event>, t: uint64, x: seq<LogEntry>,
                                      quorum: set<NodeId>, p: nat, n: NodeId)
    requires Setting(ids, es, t, x, quorum) && p <= |es| && n in StateAfter(ids, es, p).nodes
    requires StateAfter(ids, es, p).nodes[n].currentTerm > t
    requires Elected(StateAfter(ids, es, p), StateAfter(ids, es, p).nodes[n].currentTerm, n)
    ensures x <= StateAfter(ids, es, p).nodes[n].log
    decreases p, 1
  {
    var c := StateAfter(ids, es, p);
    var u := c.nodes[n].currentTerm;
    SaneAt(ids, es, p);
    forall q | 0 <= q < p ensures Have(StateAfter(ids, es, q), t, x) {
      LeadersHave(ids, es, t, x, quorum, q);
    }
    var v := QuorumVotes(ids, c, quorum, u, n);
    var k := VoteOrigin(ids, es, p, Vote(u, v, n));
    if es[k].Timeout? {
      OwnName(ids, es, k, v);
      QuorumHolds(ids, es, t, x, quorum, n, p, p);
    } else {
      VoterHas(ids, es, t, x, quorum, k);
      assert TrueRequest(ids, es, k);
      var j :| 0 <= j <= k && Stands(StateAfter(ids, es, j), es[k].vote);
      GrantedHas(ids, es, t, x, k, j);
      HolderStays(ids, es, n, t, x, j, p);
    }
  }

  lemma VoterHas(ids: set<NodeId>, es: seq<Event>, t: uint64, x: seq<LogEntry>,
                 quorum: set<NodeId>, k: nat)
    requires Setting(ids, es, t, x, quorum) && k < |es| && es[k].DeliverVote? && es[k].n in quorum
    requires es[k].n in StateAfter(ids, es, k).nodes && es[k].vote.term > t
    requires OnRequestVote(StateAfter(ids, es, k).nodes[es[k].n], es[k].vote).1.voteGranted
    requires forall q | 0 <= q < k :: Have(StateAfter(ids, es, q), t, x)
    ensures Holder(StateAfter(ids, es, k), es[k].n, t, x)
  {
    AtNext(ids, es, k);
    GrantMovesTerm(StateAfter(ids, es, k), es[k].n, es[k].vote);
    QuorumHolds(ids, es, t, x, quorum, es[k].n, k, k + 1);
  }

  lemma {:induction false} LeadersHave(ids: set<NodeId>, es: seq<Event>, t: uint64, x: seq<LogEntry>,
                                       quorum: set<NodeId>, p: nat)
    requires Setting(ids, es, t, x, quorum) && p <= |es|
    ensures Have(StateAfter(ids, es, p), t, x)
    decreases p, 0
  {
    if p > 0 {
      var c, e := StateAfter(ids, es, p - 1), es[p - 1];
      LeadersHave(ids, es, t, x, quorum, p - 1);
      AtNext(ids, es, p - 1);
      if e.n in c.nodes {
        if (e.Propose? || e.Send?) && c.nodes[e.n].currentTerm > t {
          ActorElected(ids, es, p - 1);
          ElectedHas(ids, es, t, x, quorum, p - 1, e.n);
        }
        HaveStep(c, e, t, x);
      } else {
        assert StateAfter(ids, es, p) == c;
      }
    }
  }

  lemma HaveStep(c: Cluster, e: Event, t: uint64, x: seq<LogEntry>)
    requires Have(c, t, x) && e.n in c.nodes
    requires (e.Propose? || e.Send?) && c.nodes[e.n].currentTerm > t ==> x <= c.nodes[e.n].log
    ensures Have(Step(c, e), t, x)
  {
    forall u | u in Step(c, e).leaderLog && u > t ensures x <= Step(c, e).leaderLog[u] {
      LeaderLogs(c, e, u);
    }
  }

  /** Leader Completeness: an entry that a majority stored while in its term, at whatever moments of
      the run, is in the log of every node that is elected in a later term, from the moment it is. */
  lemma LeaderCompleteness(ids: set<NodeId>, es: seq<Event>, t: uint64, x: seq<LogEntry>,
                           quorum: set<NodeId>, p: nat, n: NodeId)
    requires Keeps(Init(ids), es, OnlyElectedAct) && Truthful(ids, es)
    requires Committed(ids, es, t, x, quorum)
    requires p <= |es| && n in StateAfter(ids, es, p).nodes
    requires StateAfter(ids, es, p).nodes[n].currentTerm > t
    requires Elected(StateAfter(ids, es, p), StateAfter(ids, es, p).nodes[n].currentTerm, n)
    ensures x <= StateAfter(ids, es, p).nodes[n].log
  {
    ElectedHas(ids, es, t, x, quorum, p, n);
  }

  /** Whoever has the entry, in its term or a later one, has it ever after. */
  lemma CommittedStays(ids: set<NodeId>, es: seq<Event>, t: uint64, x: seq<LogEntry>,
                       quorum: set<NodeId>, n: NodeId, j: nat, p: nat)
    requires Keeps(Init(ids), es, OnlyElectedAct) && Truthful(ids, es)
    requires Committed(ids, es, t, x, quorum)
    requires j <= p <= |es| && Holder(StateAfter(ids, es, j), n, t, x)
    ensures Holder(StateAfter(ids, es, p), n, t, x)
  {
    forall q | j <= q < p ensures Have(StateAfter(ids, es, q), t, x) {
      LeadersHave(ids, es, t, x, quorum, q);
    }
    HolderStays(ids, es, n, t, x, j, p);
  }
}
