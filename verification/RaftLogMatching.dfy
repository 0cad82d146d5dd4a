/** Log Matching (section 5.3 of the Raft paper) and what follows from it: delayed duplicates of
    a request never change a log. */
module RaftLogMatching {
  import opened Basics
  import opened RaftNode
  import opened RaftCluster
  import opened RaftElection

  /** Every entry of `log` sits where the leader of its term put it, with the same entries
      before it. */
  ghost predicate Agrees(history: map<uint64, seq<LogEntry>>, log: seq<LogEntry>) {
    forall i | 0 <= i < |log| :: AgreesAt(history, log, i)
  }

  ghost predicate AgreesAt(history: map<uint64, seq<LogEntry>>, log: seq<LogEntry>, i: nat)
    requires i < |log|
  {
    var t := log[i].term;
    t in history && i < |history[t]| && log[..i + 1] == history[t][..i + 1]
  }

  /** A request that carries a piece of the log of its term's leader. */
  ghost predicate IsSlice(history: map<uint64, seq<LogEntry>>, req: AppendRequest) {
    && req.term in history
    && req.prevLogIndex + |req.entries| <= |history[req.term]|
    && req.entries == history[req.term][req.prevLogIndex..req.prevLogIndex + |req.entries|]
    && (req.prevLogIndex > 0 ==>
          req.prevLogTerm == history[req.term][req.prevLogIndex - 1].term)
  }

  ghost predicate LeaderInv(c: Cluster, t: uint64)
    requires t in c.leaderLog
  {
    && Agrees(c.leaderLog, c.leaderLog[t])
    && t in c.leader && c.leader[t] in c.nodes
    && t <= c.nodes[c.leader[t]].currentTerm
    && (t == c.nodes[c.leader[t]].currentTerm ==> c.nodes[c.leader[t]].log == c.leaderLog[t])
  }

  ghost predicate Inv(c: Cluster) {
    && c.leader.Keys == c.leaderLog.Keys
    && (forall n | n in c.nodes :: Agrees(c.leaderLog, c.nodes[n].log))
    && (forall t | t in c.leaderLog :: LeaderInv(c, t))
    && (forall req | req in c.sent :: IsSlice(c.leaderLog, req))
  }

  /** The discipline: one node per term appends and sends, append requests come from the wire,
      snapshots are not installed and no term counter wraps. */
  predicate Disciplined(c: Cluster, e: Event) {
    && NoWrap(c, e)
    && (e.DeliverAppend? ==> e.append in c.sent)
    && (e.DeliverSnapshot? ==> !e.snapshot.done)
    && ((e.Propose? || e.Send?) && e.n in c.nodes && c.nodes[e.n].currentTerm in c.leader ==>
          c.leader[c.nodes[e.n].currentTerm] == e.n)
  }

  // ------------------------------------------------------------- storing a slice

  /** Equal terms at one position mean equal prefixes. */
  lemma SamePrefix(h: map<uint64, seq<LogEntry>>, a: seq<LogEntry>, b: seq<LogEntry>, i: nat)
    requires Agrees(h, a) && Agrees(h, b)
    requires i < |a| && i < |b| && a[i].term == b[i].term
    ensures a[..i + 1] == b[..i + 1]
  {
    assert AgreesAt(h, a, i) && AgreesAt(h, b, i);
  }

  lemma AgreesPrefix(h: map<uint64, seq<LogEntry>>, a: seq<LogEntry>, k: nat)
    requires Agrees(h, a) && k <= |a|
    ensures Agrees(h, a[..k])
  {
    forall i | 0 <= i < k ensures AgreesAt(h, a[..k], i) {
      assert AgreesAt(h, a, i);
      assert a[..k][..i + 1] == a[..i + 1];
    }
  }

  lemma AgreedPrefix(h: map<uint64, seq<LogEntry>>, log: seq<LogEntry>, lead: seq<LogEntry>,
                     prev: nat, es: seq<LogEntry>)
    requires Agrees(h, log) && Agrees(h, lead) && prev <= |log| && prev + |es| <= |lead|
    requires prev > 0 ==> log[prev - 1].term == lead[prev - 1].term
    requires forall i | 0 <= i < |es| :: es[i] == lead[prev + i]
    ensures var k := prev + AgreeLen(log, prev, es);
            log[..k] == lead[..k]
  {
    var k := prev + AgreeLen(log, prev, es);
    if k > 0 {
      assert k > prev ==> log[k - 1].term == es[k - 1 - prev].term;
      SamePrefix(h, log, lead, k - 1);
    }
  }

  lemma Rejoin<T>(lead: seq<T>, prev: nat, a: nat, end: nat)
    requires prev + a <= end <= |lead|
    ensures lead[..prev + a] + lead[prev..end][a..] == lead[..end]
  {
  }

  /** Storing a slice of the leader's log either changes nothing or makes the log a prefix of the
      leader's; either way the log then starts with everything up to the end of the slice. */
  lemma MergeSlice(h: map<uint64, seq<LogEntry>>, log: seq<LogEntry>, req: AppendRequest)
    requires Agrees(h, log) && IsSlice(h, req) && Agrees(h, h[req.term])
    requires PrevMatches(log, req)
    ensures req.prevLogIndex <= |log|
    ensures var end := req.prevLogIndex + |req.entries|;
            var merged := Merge(log, req.prevLogIndex, req.entries);
            && (merged == log || merged == h[req.term][..end])
            && end <= |merged| && merged[..end] == h[req.term][..end]
  {
    var lead, prev, es := h[req.term], req.prevLogIndex, req.entries;
    AgreedPrefix(h, log, lead, prev, es);
    MergePrefix(log, lead, prev, es);
  }

  lemma MergePrefix(log: seq<LogEntry>, lead: seq<LogEntry>, prev: nat, es: seq<LogEntry>)
    requires prev <= |log| && prev + |es| <= |lead| && es == lead[prev..prev + |es|]
    requires var k := prev + AgreeLen(log, prev, es);
             log[..k] == lead[..k]
    ensures var end, merged := prev + |es|, Merge(log, prev, es);
            && (merged == log || merged == lead[..end])
            && end <= |merged| && merged[..end] == lead[..end]
  {
    Rejoin(lead, prev, AgreeLen(log, prev, es), prev + |es|);
  }

  // --------------------------------------------------------------- what a step keeps

  lemma LogUntouched(c: Cluster, e: Event)
    requires e.n in c.nodes && !e.Propose? && (e.DeliverSnapshot? ==> !e.snapshot.done)
    requires e.DeliverAppend? ==> !Accepts(c.nodes[e.n], e.append)
    ensures e.n in Step(c, e).nodes && Step(c, e).nodes[e.n].log == c.nodes[e.n].log
  {
  }

  lemma LogStored(c: Cluster, n: NodeId, req: AppendRequest)
    requires Inv(c) && n in c.nodes && req in c.sent && Accepts(c.nodes[n], req)
    ensures var log := Step(c, DeliverAppend(n, req)).nodes[n].log;
            && (log == c.nodes[n].log || log == c.leaderLog[req.term][..|log|])
            && var end := req.prevLogIndex + |req.entries|;
               end <= |log| && log[..end] == c.leaderLog[req.term][..end]
    ensures Agrees(c.leaderLog, Step(c, DeliverAppend(n, req)).nodes[n].log)
  {
    assert IsSlice(c.leaderLog, req) && LeaderInv(c, req.term);
    MergeSlice(c.leaderLog, c.nodes[n].log, req);
    AgreesPrefix(c.leaderLog, c.leaderLog[req.term], req.prevLogIndex + |req.entries|);
  }

  /** The log a replica holds after an event other than a proposal. */
  lemma StoredLog(c: Cluster, e: Event)
    requires Inv(c) && Disciplined(c, e) && e.n in c.nodes && !e.Propose?
    ensures e.n in Step(c, e).nodes
    ensures Agrees(c.leaderLog, Step(c, e).nodes[e.n].log)
    ensures var t := c.nodes[e.n].currentTerm;
            t in c.leader && c.leader[t] == e.n && Step(c, e).nodes[e.n].currentTerm == t ==>
              Step(c, e).nodes[e.n].log == c.nodes[e.n].log
  {
    if e.DeliverAppend? && Accepts(c.nodes[e.n], e.append) {
      LogStored(c, e.n, e.append);
      assert LeaderInv(c, e.append.term);
      assert IsSlice(c.leaderLog, e.append);
    } else {
      LogUntouched(c, e);
    }
  }

  /** History that grows at the end of one leader's log stays history. */
  lemma AgreesGrown(h: map<uint64, seq<LogEntry>>, t: uint64, new_: seq<LogEntry>,
                    log: seq<LogEntry>)
    requires Agrees(h, log)
    requires t in h ==> h[t] <= new_
    ensures Agrees(h[t := new_], log)
  {
    var h' := h[t := new_];
    forall i | 0 <= i < |log| ensures AgreesAt(h', log, i) {
      assert AgreesAt(h, log, i);
    }
  }

  lemma NodesStep(c: Cluster, e: Event)
    requires Inv(c) && Disciplined(c, e) && e.n in c.nodes && !e.Propose? && !e.Send?
    ensures Inv(Step(c, e))
  {
    var c' := Step(c, e);
    StoredLog(c, e);
    StepTerms(c, e, e.n);
    forall t | t in c'.leaderLog ensures LeaderInv(c', t) {
      assert LeaderInv(c, t);
    }
  }

  /** A leader's own log, extended by entries of its term, agrees with the extended history. */
  lemma OwnLog(h: map<uint64, seq<LogEntry>>, t: uint64, before: seq<LogEntry>,
               after: seq<LogEntry>)
    requires Agrees(h, before) && before <= after && (t in h ==> h[t] == before)
    requires forall i | |before| <= i < |after| :: after[i].term == t
    ensures Agrees(h[t := after], after)
  {
    var h' := h[t := after];
    forall i | 0 <= i < |after| ensures AgreesAt(h', after, i) {
      if i < |before| {
        assert AgreesAt(h, before, i);
        assert after[..i + 1] == before[..i + 1];
      }
    }
  }

  /** A leader extends its log, possibly by nothing, and history follows. */
  lemma NoteStep(c: Cluster, n: NodeId, s: NodeState)
    requires Inv(c) && n in c.nodes
    requires s.currentTerm == c.nodes[n].currentTerm && c.nodes[n].log <= s.log
    requires s.currentTerm in c.leader ==> c.leader[s.currentTerm] == n
    requires forall i | |c.nodes[n].log| <= i < |s.log| :: s.log[i].term == s.currentTerm
    ensures Inv(Note(Put(c, n, s), n))
  {
    var t, h := s.currentTerm, c.leaderLog;
    var h' := h[t := s.log];
    var c' := Note(Put(c, n, s), n);
    assert t in h ==> LeaderInv(c, t) && h[t] == c.nodes[n].log;
    OwnLog(h, t, c.nodes[n].log, s.log);
    forall m | m in c'.nodes ensures Agrees(h', c'.nodes[m].log) {
      if m != n { AgreesGrown(h, t, s.log, c.nodes[m].log); }
    }
    forall u | u in h' ensures LeaderInv(c', u) {
      if u != t {
        assert LeaderInv(c, u);
        AgreesGrown(h, t, s.log, h[u]);
      }
    }
    forall req | req in c'.sent ensures IsSlice(h', req) {
      assert IsSlice(h, req);
    }
  }

  lemma SendStep(c: Cluster, n: NodeId, prev: nat, len: nat, commit: nat)
    requires Inv(c) && Disciplined(c, Send(n, prev, len, commit)) && n in c.nodes
    ensures Inv(Step(c, Send(n, prev, len, commit)))
  {
    var s := c.nodes[n];
    if prev + len <= |s.log| {
      OwnSlice(c, n, prev, len, commit);
      NoteStep(c, n, s);
      SentStep(Note(c, n), Slice(s, prev, len, commit));
    }
  }

  lemma OwnSlice(c: Cluster, n: NodeId, prev: nat, len: nat, commit: nat)
    requires n in c.nodes && prev + len <= |c.nodes[n].log|
    ensures Put(c, n, c.nodes[n]) == c
    ensures IsSlice(Note(c, n).leaderLog, Slice(c.nodes[n], prev, len, commit))
  {
    assert c.nodes[n := c.nodes[n]] == c.nodes;
  }

  lemma SentStep(c: Cluster, req: AppendRequest)
    requires Inv(c) && IsSlice(c.leaderLog, req)
    ensures Inv(c.(sent := c.sent + {req}))
  {
    var c' := c.(sent := c.sent + {req});
    forall t | t in c'.leaderLog ensures LeaderInv(c', t) {
      assert LeaderInv(c, t);
    }
  }

  lemma InvStep(c: Cluster, e: Event)
    requires Inv(c) && Disciplined(c, e)
    ensures Inv(Step(c, e))
  {
    if e.n in c.nodes {
      match e
      case Propose(n, cmd, now) => NoteStep(c, n, OnPropose(c.nodes[n], cmd, now));
      case Send(n, prev, len, commit) => SendStep(c, n, prev, len, commit);
      case _ => NodesStep(c, e);
    }
  }

  lemma {:induction false} InvRun(c: Cluster, es: seq<Event>)
    requires Inv(c) && Keeps(c, es, Disciplined)
    ensures Inv(Run(c, es))
  {
    if es != [] {
      InvRun(c, es[..|es| - 1]);
      InvStep(Run(c, es[..|es| - 1]), es[|es| - 1]);
    }
  }

  // ------------------------------------------------------------------- the theorems

  /** In every disciplined run, two logs that hold the same term at a position are equal up to
      and including it. */
  lemma LogMatching(ids: set<NodeId>, es: seq<Event>, m: NodeId, n: NodeId, i: nat)
    requires Keeps(Init(ids), es, Disciplined)
    requires var c := Run(Init(ids), es);
             && m in c.nodes && n in c.nodes
             && i < |c.nodes[m].log| && i < |c.nodes[n].log|
             && c.nodes[m].log[i].term == c.nodes[n].log[i].term
    ensures var c := Run(Init(ids), es);
            c.nodes[m].log[..i + 1] == c.nodes[n].log[..i + 1]
  {
    var c := Run(Init(ids), es);
    InvRun(Init(ids), es);
    SamePrefix(c.leaderLog, c.nodes[m].log, c.nodes[n].log, i);
  }

  /** While `n` stays in the term, its log starts with the leader's first `k` entries. */
  ghost predicate Holds(c: Cluster, n: NodeId, t: uint64, k: nat) {
    && n in c.nodes && t in c.leaderLog && k <= |c.leaderLog[t]|
    && t <= c.nodes[n].currentTerm
    && (t == c.nodes[n].currentTerm ==>
          k <= |c.nodes[n].log| && c.nodes[n].log[..k] == c.leaderLog[t][..k])
  }

  lemma HoldsStep(c: Cluster, e: Event, n: NodeId, t: uint64, k: nat)
    requires Inv(c) && Disciplined(c, e) && Holds(c, n, t, k)
    ensures Holds(Step(c, e), n, t, k)
  {
    StepTerms(c, e, n);
    assert LeaderInv(c, t);
    if e.n == n && e.DeliverAppend? && Accepts(c.nodes[n], e.append) && e.append.term == t {
      assert IsSlice(c.leaderLog, e.append);
      MergeKeepsPrefix(c.leaderLog, c.nodes[n].log, e.append, k);
    }
  }

  lemma MergeKeepsPrefix(h: map<uint64, seq<LogEntry>>, log: seq<LogEntry>, req: AppendRequest,
                         k: nat)
    requires IsSlice(h, req) && PrevMatches(log, req)
    requires k <= |log| && k <= |h[req.term]| && log[..k] == h[req.term][..k]
    ensures req.prevLogIndex <= |log|
    ensures var merged := Merge(log, req.prevLogIndex, req.entries);
            k <= |merged| && merged[..k] == log[..k]
  {
    var lead := h[req.term];
    assert forall i | 0 <= i < k :: log[..k][i] == log[i] && lead[..k][i] == lead[i];
    MergeKeepsCommon(log, lead, req.prevLogIndex, req.entries, k);
  }

  lemma MergeKeepsCommon(log: seq<LogEntry>, lead: seq<LogEntry>, prev: nat, es: seq<LogEntry>, k: nat)
    requires prev <= |log| && prev + |es| <= |lead| && es == lead[prev..prev + |es|]
    requires k <= |log| && k <= |lead| && forall i | 0 <= i < k :: log[i] == lead[i]
    ensures k <= |Merge(log, prev, es)| && Merge(log, prev, es)[..k] == log[..k]
  {
    var a := AgreeLen(log, prev, es);
    if a < |es| {
      AgreesFar(log, lead, prev, es, k);
    }
  }

  /** Where the log and the leader's agree, the request agrees with the log. */
  lemma AgreesFar(log: seq<LogEntry>, lead: seq<LogEntry>, prev: nat, es: seq<LogEntry>, k: nat)
    requires prev <= |log| && prev + |es| <= |lead| && es == lead[prev..prev + |es|]
    requires k <= |log| && k <= |lead| && forall i | 0 <= i < k :: log[i] == lead[i]
    ensures AgreeLen(log, prev, es) < |es| ==> k <= prev + AgreeLen(log, prev, es)
  {
    assert forall i | 0 <= i < |es| :: es[i] == lead[prev + i];
  }

  lemma {:induction false} HoldsRun(c: Cluster, es: seq<Event>, n: NodeId, t: uint64, k: nat)
    requires Inv(c) && Keeps(c, es, Disciplined) && Holds(c, n, t, k)
    ensures Holds(Run(c, es), n, t, k)
  {
    if es != [] {
      HoldsRun(c, es[..|es| - 1], n, t, k);
      InvRun(c, es[..|es| - 1]);
      HoldsStep(Run(c, es[..|es| - 1]), es[|es| - 1], n, t, k);
    }
  }

  lemma AcceptedHolds(c: Cluster, n: NodeId, req: AppendRequest)
    requires Inv(c) && n in c.nodes && req in c.sent && Accepts(c.nodes[n], req)
    ensures Holds(Step(c, DeliverAppend(n, req)), n, req.term,
                  req.prevLogIndex + |req.entries|)
  {
    LogStored(c, n, req);
    assert IsSlice(c.leaderLog, req);
  }

  lemma RedeliveryFrom(c: Cluster, n: NodeId, req: AppendRequest, es: seq<Event>)
    requires Inv(c) && req in c.sent
    requires Holds(c, n, req.term, req.prevLogIndex + |req.entries|)
    requires Keeps(c, es, Disciplined)
    ensures var c' := Run(c, es);
            && n in c'.nodes
            && (c'.nodes[n].currentTerm == req.term ==>
                  PrevMatches(c'.nodes[n].log, req)
                  && Merge(c'.nodes[n].log, req.prevLogIndex, req.entries) == c'.nodes[n].log)
  {
    HoldsRun(c, es, n, req.term, req.prevLogIndex + |req.entries|);
    InvRun(c, es);
    SentRun(c, es, req);
    var c' := Run(c, es);
    assert IsSlice(c'.leaderLog, req);
    if c'.nodes[n].currentTerm == req.term {
      AlreadyStored(c'.leaderLog, c'.nodes[n].log, req);
    }
  }

  /** Once a replica has accepted a request, accepting the same request again later in the term,
      after whatever else happened in between, succeeds and leaves its log as it is. */
  lemma RedeliveryIsHarmless(ids: set<NodeId>, before: seq<Event>, n: NodeId, req: AppendRequest,
                             between: seq<Event>, c: Cluster, c2: Cluster)
    requires Keeps(Init(ids), before, Disciplined) && c == Run(Init(ids), before)
    requires n in c.nodes && req in c.sent && Accepts(c.nodes[n], req)
    requires Keeps(Step(c, DeliverAppend(n, req)), between, Disciplined)
    requires c2 == Run(Step(c, DeliverAppend(n, req)), between)
    requires n in c2.nodes && c2.nodes[n].currentTerm == req.term
    ensures OnAppendEntries(c2.nodes[n], req).1.success
    ensures OnAppendEntries(c2.nodes[n], req).0.log == c2.nodes[n].log
  {
    InvRun(Init(ids), before);
    AcceptedHolds(c, n, req);
    InvStep(c, DeliverAppend(n, req));
    RedeliveryFrom(Step(c, DeliverAppend(n, req)), n, req, between);
  }

  lemma {:induction false} SentRun(c: Cluster, es: seq<Event>, req: AppendRequest)
    requires req in c.sent
    ensures req in Run(c, es).sent
  {
    if es != [] {
      SentRun(c, es[..|es| - 1], req);
      StepMembers(Run(c, es[..|es| - 1]), es[|es| - 1]);
    }
  }

  lemma AlreadyStored(h: map<uint64, seq<LogEntry>>, log: seq<LogEntry>, req: AppendRequest)
    requires IsSlice(h, req)
    requires var end := req.prevLogIndex + |req.entries|;
             end <= |log| && log[..end] == h[req.term][..end]
    ensures PrevMatches(log, req)
    ensures Merge(log, req.prevLogIndex, req.entries) == log
  {
    var lead, prev, es := h[req.term], req.prevLogIndex, req.entries;
    SameEntries(log, lead, prev, prev + |es|);
  }

  lemma SameEntries(log: seq<LogEntry>, lead: seq<LogEntry>, prev: nat, end: nat)
    requires prev <= end <= |log| && end <= |lead| && log[..end] == lead[..end]
    ensures forall i | 0 <= i < end :: log[i] == lead[i]
    ensures forall i | prev <= i < end :: lead[prev..end][i - prev] == log[i]
  {
    assert forall i | 0 <= i < end :: log[..end][i] == log[i] && lead[..end][i] == lead[i];
  }

  // ---------------------------------------------------- leaders that won an election

  /** The same discipline, with "one node per term" replaced by "only nodes that hold a majority
      of the votes of their term". */
  predicate OnlyElectedAct(c: Cluster, e: Event) {
    && NoWrap(c, e)
    && (e.DeliverAppend? ==> e.append in c.sent)
    && (e.DeliverSnapshot? ==> !e.snapshot.done)
    && ((e.Propose? || e.Send?) && e.n in c.nodes ==>
          e.n != "" && Elected(c, c.nodes[e.n].currentTerm, e.n))
  }

  ghost predicate LeadersElected(c: Cluster) {
    forall t | t in c.leader :: c.leader[t] != "" && Elected(c, t, c.leader[t])
  }

  lemma LeadersElectedStep(c: Cluster, e: Event)
    requires LeadersElected(c) && VoteInv(c) && OnlyElectedAct(c, e)
    ensures Disciplined(c, e)
    ensures LeadersElected(Step(c, e))
  {
    StepMembers(c, e);
    var c' := Step(c, e);
    forall t | t in c'.leader ensures c'.leader[t] != "" && Elected(c', t, c'.leader[t]) {
      SubsetSize(Supporters(c, t, c'.leader[t]), Supporters(c', t, c'.leader[t]));
    }
    if (e.Propose? || e.Send?) && e.n in c.nodes && c.nodes[e.n].currentTerm in c.leader {
      var t := c.nodes[e.n].currentTerm;
      OneWinner(c, t, e.n, c.leader[t]);
    }
  }

  lemma {:induction false} ElectedRunsAreDisciplined(ids: set<NodeId>, es: seq<Event>)
    requires Keeps(Init(ids), es, OnlyElectedAct)
    ensures Keeps(Init(ids), es, Disciplined) && Keeps(Init(ids), es, NoWrap)
    ensures LeadersElected(Run(Init(ids), es))
  {
    if es != [] {
      var c := Run(Init(ids), es[..|es| - 1]);
      ElectedRunsAreDisciplined(ids, es[..|es| - 1]);
      VotesRun(ids, es[..|es| - 1]);
      LeadersElectedStep(c, es[|es| - 1]);
    }
  }

  /** Log Matching for every run in which only nodes with a majority append and send. */
  lemma ElectedLogMatching(ids: set<NodeId>, es: seq<Event>, m: NodeId, n: NodeId, i: nat)
    requires Keeps(Init(ids), es, OnlyElectedAct)
    requires var c := Run(Init(ids), es);
             && m in c.nodes && n in c.nodes
             && i < |c.nodes[m].log| && i < |c.nodes[n].log|
    ensures var a, b := Run(Init(ids), es).nodes[m].log, Run(Init(ids), es).nodes[n].log;
            a[..i + 1] == b[..i + 1] <==> a[i].term == b[i].term
  {
    ElectedRunsAreDisciplined(ids, es);
    var a, b := Run(Init(ids), es).nodes[m].log, Run(Init(ids), es).nodes[n].log;
    if a[i].term == b[i].term {
      LogMatching(ids, es, m, n, i);
    } else {
      assert a[..i + 1][i] != b[..i + 1][i];
    }
  }
}
